/**
 * The option-disabling rule of `download_nexd`: which NEXD material types stay selectable after an
 * export attempt, and the name of the exported file.
 */
module NexdExport {
  import opened Wrappers
  import opened Text
  import Dialogs

  /** One entry of the `radio_nexd` options: its caption, its value and whether it is greyed out. */
  datatype RadioOption = RadioOption(caption: string, value: string, disabled: bool)

  /** How the hidden material encoder and writer ended, as the exception they raised. */
  datatype ExportResult =
    | Exported
    | ModuleMissing(message: string)
    | AttributeFailure(message: string)
    | ValueFailure(message: string)
    | OtherFailure(message: string)  // an `ImportError`, `KeyError`, `TypeError`, ... no `except` names

  /** What the `except` clauses do with that result. */
  datatype Handling =
    | Completed
    | DisableAll(message: string)
    | DisableFailing(message: string)
    | Escapes

  /**
   * The handlers as written: `except AttributeError or ValueError` evaluates the `or` first, which
   * yields `AttributeError`, so only that class is caught and a `ValueError` leaves the callback.
   */
  function HandlingAsWritten(result: ExportResult): (h: Handling)
    ensures h.Escapes? <==> result.ValueFailure? || result.OtherFailure?
  {
    match result
    case Exported => Completed
    case ModuleMissing(m) => DisableAll(m + ". Please install Python module.")
    case AttributeFailure(m) => DisableFailing(m)
    case ValueFailure(_) => Escapes
    case OtherFailure(_) => Escapes
  }

  /**
   * The handlers as evidently intended: both `AttributeError` and `ValueError` disable the failing type.
   * An exception class that no `except` clause names still escapes.
   */
  function Handle(result: ExportResult): (h: Handling)
    ensures h.Escapes? <==> result.OtherFailure?
    ensures result.ValueFailure? || result.AttributeFailure? ==> h == DisableFailing(result.message)
    ensures !result.ValueFailure? ==> h == HandlingAsWritten(result)
  {
    match result
    case Exported => Completed
    case ModuleMissing(m) => DisableAll(m + ". Please install Python module.")
    case AttributeFailure(m) => DisableFailing(m)
    case ValueFailure(m) => DisableFailing(m)
    case OtherFailure(_) => Escapes
  }

  /** The written handlers let a `ValueError` from the encoder escape, with any message. */
  lemma AsWrittenLetsValueErrorEscape(message: string)
    ensures HandlingAsWritten(ValueFailure(message)) == Escapes
    ensures Handle(ValueFailure(message)) == DisableFailing(message)
  {
  }

  /** An encoder failure for `matType` also rules out the option `value`: the same type, or `poro2f` after `poro1f`. */
  predicate FailsFor(value: string, matType: string) {
    value == matType || (value == "poro2f" && matType == "poro1f")
  }

  /** The options with the `disabled` flag of each set to `flag`. */
  function AllDisabled(options: seq<RadioOption>, flag: bool): (r: seq<RadioOption>)
    ensures |r| == |options|
    ensures forall i :: 0 <= i < |r| ==> r[i] == options[i].(disabled := flag)
  {
    seq(|options|, i requires 0 <= i < |options| => options[i].(disabled := flag))
  }

  /** The options after a failure of `matType`: those it rules out are disabled, the rest keep their flag. */
  function FailingDisabled(options: seq<RadioOption>, matType: string): (r: seq<RadioOption>)
    ensures |r| == |options|
    ensures forall i :: 0 <= i < |r| ==>
      r[i].caption == options[i].caption && r[i].value == options[i].value &&
      (r[i].disabled <==> options[i].disabled || FailsFor(options[i].value, matType))
  {
    seq(|options|, i requires 0 <= i < |options| =>
      if FailsFor(options[i].value, matType) then options[i].(disabled := true) else options[i])
  }

  /** After a failure the failing type can no longer be chosen, and after a `poro1f` failure neither can `poro2f`. */
  lemma FailingTypeDisabled(options: seq<RadioOption>, matType: string, i: nat)
    requires i < |options|
    requires options[i].value == matType || (matType == "poro1f" && options[i].value == "poro2f")
    ensures FailingDisabled(options, matType)[i].disabled
  {
  }

  /** The bare name "yaml" exports as "matprop_", with nothing after the prefix. */
  lemma BareYamlExportName()
    ensures MatpropName(Dialogs.WithYamlExtension("yaml")) == "matprop_"
  {
    Dialogs.BareYamlName();
  }

  /** A failure never re-enables an option and leaves every unrelated option as it was. */
  lemma FailureOnlyDisables(options: seq<RadioOption>, matType: string, i: nat)
    requires i < |options|
    ensures options[i].disabled ==> FailingDisabled(options, matType)[i].disabled
    ensures !FailsFor(options[i].value, matType) ==> FailingDisabled(options, matType)[i] == options[i]
  {
  }

  /** `for option in mat_options: option['disabled'] = flag`, in place. */
  method SetAllDisabled(options: array<RadioOption>, flag: bool)
    modifies options
    ensures options[..] == AllDisabled(old(options[..]), flag)
  {
    for i := 0 to options.Length
      invariant forall k :: 0 <= k < i ==> options[k] == old(options[k]).(disabled := flag)
      invariant forall k :: i <= k < options.Length ==> options[k] == old(options[k])
    {
      options[i] := options[i].(disabled := flag);
    }
  }

  /** The loop of the failure handler: disable, in place, every option the failure of `matType` rules out. */
  method DisableFailingOptions(options: array<RadioOption>, matType: string)
    modifies options
    ensures options[..] == FailingDisabled(old(options[..]), matType)
  {
    for i := 0 to options.Length
      invariant forall k :: 0 <= k < i ==>
        options[k] == if FailsFor(old(options[k]).value, matType) then old(options[k]).(disabled := true) else old(options[k])
      invariant forall k :: i <= k < options.Length ==> options[k] == old(options[k])
    {
      if FailsFor(options[i].value, matType) {
        options[i] := options[i].(disabled := true);
      }
    }
  }

  /** Everything before the last `.` of a name, or the empty string when it has none (`".".join(s.split(".")[:-1])`). */
  function Stem(s: string): (r: string)
    ensures '.' !in s ==> r == ""
    ensures '.' in s ==> |r| < |s| && r == s[..|r|] && s[|r|] == '.' && '.' !in s[|r| + 1..]
  {
    if |s| == 0 then ""
    else if s[|s| - 1] == '.' then s[..|s| - 1]
    else
      assert s[..|s| - 1] + [s[|s| - 1]] == s;
      Stem(s[..|s| - 1])
  }

  /** The exported file for a dataset file name. */
  function MatpropName(fileName: string): string
  {
    "matprop_" + Stem(fileName)
  }

  /**
   * A dot-free name typed into a save dialog exports under that name; the bare name "yaml" is the
   * exception, since it is stored without an extension.
   */
  lemma {:induction false} MatpropOfNormalisedName(name: string)
    requires '.' !in name && name != "yaml"
    ensures MatpropName(Dialogs.WithYamlExtension(name)) == "matprop_" + name
  {
    assert LastSegment(name, '.') == name;
    var t := name + ".yaml";
    assert Dialogs.WithYamlExtension(name) == t;
    assert t[|name|] == '.';
    var r := Stem(t);
    assert r == t[..|name|] == name;
  }

  /** The reply of `download_nexd`, or the escape of an exception out of it. */
  datatype NexdReply =
    | NexdCrashed
    | NexdReply(downloadDisabled: bool, serveDisabled: bool, optionsReturned: bool, action: Update<string>, error: string)

  /**
   * `download_nexd`: with the export modal open it runs the (hidden) encoder and handles its result
   * with `handling`, which is `HandlingAsWritten` for the callback as written and `Handle` for the
   * corrected one; with the modal closed it re-enables every option. `built` is false when building
   * the regime before the `try` raised; the file name of the action is relative to the client path.
   */
  method DownloadNexd(modalIsOpen: bool, fileNameOrig: Option<string>, matType: string, built: bool,
                      result: ExportResult, handling: ExportResult -> Handling, options: array<RadioOption>)
    returns (reply: NexdReply)
    modifies options
    ensures fileNameOrig.None? || (modalIsOpen && !built) ==> reply.NexdCrashed? && options[..] == old(options[..])
    ensures fileNameOrig.Some? && !modalIsOpen ==>
      reply == NexdReply(true, false, true, NoUpdate, "") && options[..] == AllDisabled(old(options[..]), false)
    ensures fileNameOrig.Some? && modalIsOpen && built ==>
      match handling(result)
      case Completed =>
        reply == NexdReply(false, false, false, Set(MatpropName(fileNameOrig.value)), "") && options[..] == old(options[..])
      case DisableAll(m) =>
        reply == NexdReply(true, true, true, NoUpdate, m) && options[..] == AllDisabled(old(options[..]), true)
      case DisableFailing(m) =>
        reply == NexdReply(true, false, true, NoUpdate, m) && options[..] == FailingDisabled(old(options[..]), matType)
      case Escapes =>
        reply.NexdCrashed? && options[..] == old(options[..])
  {
    if fileNameOrig.None? {
      return NexdCrashed;
    }
    var fileName := MatpropName(fileNameOrig.value);
    if modalIsOpen {
      if !built {
        return NexdCrashed;
      }
      match handling(result)
      case Completed =>
        reply := NexdReply(false, false, false, Set(fileName), "");
      case Escapes =>
        reply := NexdCrashed;
      case DisableAll(m) =>
        SetAllDisabled(options, true);
        reply := NexdReply(true, true, true, NoUpdate, m);
      case DisableFailing(m) =>
        DisableFailingOptions(options, matType);
        reply := NexdReply(true, false, true, NoUpdate, m);
    } else {
      SetAllDisabled(options, false);
      reply := NexdReply(true, false, true, NoUpdate, "");
    }
  }

  /** Closing the modal always leaves every material type selectable again. */
  lemma ClosingEnablesAll(options: seq<RadioOption>, i: nat)
    requires i < |options|
    ensures !AllDisabled(options, false)[i].disabled
  {
  }
}
