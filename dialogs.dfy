/**
 * The confirmation dialogs raised before a file is written, replaced, created, uploaded or deleted
 * (`save_yaml_file`, `save_yaml_file_as`, `delete_yaml_file`, `new_yaml_file`, `upload_file`):
 * filename normalisation, the membership test on the index, and the message text.
 */
module Dialogs {
  import opened Wrappers
  import opened Text
  import opened FileStore
  import opened Confirm

  /** What a dialog callback answers: `PreventUpdate`, an exception, or the dialog with its message. */
  datatype Dialog = DialogPrevented | DialogCrashed | Ask(message: string, fileName: Update<string>)

  /** What `upload_file` answers: the confirmation dialog, or the rejection dialog, each with its message. */
  datatype UploadReply = UploadPrevented | UploadCrashed | UploadAsk(message: string) | UploadRejected(message: string)

  /** The outcome of decoding and parsing the uploaded text as YAML. */
  datatype YamlCheck = YamlParsed | YamlParserError | YamlOtherError

  /** How an f-string renders an optional value: `None` prints as "None". */
  function Show(v: Option<string>): string
  {
    match v
    case Some(s) => s
    case None => "None"
  }

  /** The files indexed in the selected region, or none when `regimes[region]` raises `KeyError`. */
  function RegionFiles(index: Index, region: Option<string>): (r: Option<set<string>>)
    ensures r.Some? <==> region.Some? && region.value in index
    ensures r.Some? ==> r.value == index[region.value].Keys
  {
    if region.Some? && region.value in index then Some(index[region.value].Keys) else None
  }

  /**
   * The extension rule of `save_yaml_file_as` and `new_yaml_file`: ".yaml" is appended unless the
   * last "."-separated segment already is "yaml".
   */
  function WithYamlExtension(fileName: string): (r: string)
    ensures LastSegment(r, '.') == "yaml"
    ensures r == fileName <==> LastSegment(fileName, '.') == "yaml"
    ensures r != fileName ==> r == fileName + ".yaml"
  {
    if LastSegment(fileName, '.') != "yaml" then
      YamlSuffixSegment(fileName);
      fileName + ".yaml"
    else fileName
  }

  /** Whatever precedes it, ".yaml" makes "yaml" the last segment. */
  lemma YamlSuffixSegment(s: string)
    ensures LastSegment(s + ".yaml", '.') == "yaml"
  {
    var t := s + ".yaml";
    assert t[|t| - 5..] == ".yaml";
  }

  /** Normalising twice is normalising once. */
  lemma WithYamlExtensionIdempotent(fileName: string)
    ensures WithYamlExtension(WithYamlExtension(fileName)) == WithYamlExtension(fileName)
  {
  }

  /** A name ending in ".yaml" is kept as it is by the segment rule. */
  lemma SuffixKeptBySegmentRule(fileName: string)
    requires EndsWith(fileName, ".yaml")
    ensures WithYamlExtension(fileName) == fileName
  {
    assert fileName[..|fileName| - 5] + ".yaml" == fileName;
    YamlSuffixSegment(fileName[..|fileName| - 5]);
  }

  /**
   * Conversely, a name the segment rule keeps ends with ".yaml", except the bare name "yaml", which
   * the dialogs keep as it is although the upload test would not accept it.
   */
  lemma SegmentRuleKeepsOnlySuffixOrBare(fileName: string)
    requires WithYamlExtension(fileName) == fileName
    ensures EndsWith(fileName, ".yaml") || fileName == "yaml"
  {
    var r := LastSegment(fileName, '.');
    if fileName != "yaml" {
      assert |r| < |fileName|;
      assert fileName[|fileName| - 5..] == [fileName[|fileName| - 5]] + r;
    }
  }

  /** The bare name "yaml" is the case where the two rules part. */
  lemma BareYamlName()
    ensures WithYamlExtension("yaml") == "yaml" && !EndsWith("yaml", ".yaml")
  {
    assert "yaml"[..3] == "yam" && "yam"[..2] == "ya" && "ya"[..1] == "y" && "y"[..0] == "";
  }

  function SaveMessage(file: string): string
  {
    "Do you want to replace the existing file \"" + file + "\"?"
  }

  function DeleteMessage(file: string): string
  {
    "Do you want to delete the file \"" + file + "\"?"
  }

  function SaveAsReplaceMessage(file: string): string
  {
    "File \"" + file + "\" already exists. Do you want to replace it with the current data?"
  }

  function SaveAsCreateMessage(file: string): string
  {
    "Create new file \"" + file + "\" in current folder and save data?"
  }

  function NewFileReplaceMessage(file: string): string
  {
    "File \"" + file + "\" already exists. Do you want to replace it with an empty file?"
  }

  function NewFileCreateMessage(file: string): string
  {
    "Create new file \"" + file + "\" in current folder?"
  }

  function UploadMessage(file: string, region: string, overwrite: bool): string
  {
    "Upload " + file + " to Map name " + region + (if overwrite then " and replace existing file?" else "?")
  }

  function UploadRejectedMessage(file: string): string
  {
    "Cannot upload. File " + file + " is not a yaml-file."
  }

  /** Each message names its file: equal messages of one kind are about the same file. */
  lemma MessagesNameTheFile(a: string, b: string)
    ensures SaveMessage(a) == SaveMessage(b) ==> a == b
    ensures DeleteMessage(a) == DeleteMessage(b) ==> a == b
    ensures SaveAsReplaceMessage(a) == SaveAsReplaceMessage(b) ==> a == b
    ensures SaveAsCreateMessage(a) == SaveAsCreateMessage(b) ==> a == b
    ensures NewFileReplaceMessage(a) == NewFileReplaceMessage(b) ==> a == b
    ensures NewFileCreateMessage(a) == NewFileCreateMessage(b) ==> a == b
    ensures UploadRejectedMessage(a) == UploadRejectedMessage(b) ==> a == b
  {
    if SaveMessage(a) == SaveMessage(b) {
      FramedInjective("Do you want to replace the existing file \"", a, b, "\"?");
    }
    if DeleteMessage(a) == DeleteMessage(b) {
      FramedInjective("Do you want to delete the file \"", a, b, "\"?");
    }
    if SaveAsReplaceMessage(a) == SaveAsReplaceMessage(b) {
      FramedInjective("File \"", a, b, "\" already exists. Do you want to replace it with the current data?");
    }
    if SaveAsCreateMessage(a) == SaveAsCreateMessage(b) {
      FramedInjective("Create new file \"", a, b, "\" in current folder and save data?");
    }
    if NewFileReplaceMessage(a) == NewFileReplaceMessage(b) {
      FramedInjective("File \"", a, b, "\" already exists. Do you want to replace it with an empty file?");
    }
    if NewFileCreateMessage(a) == NewFileCreateMessage(b) {
      FramedInjective("Create new file \"", a, b, "\" in current folder?");
    }
    if UploadRejectedMessage(a) == UploadRejectedMessage(b) {
      FramedInjective("Cannot upload. File ", a, b, " is not a yaml-file.");
    }
  }

  /** A "replace" message is never a "create" message, whatever the two files are. */
  lemma ReplaceIsNotCreate(a: string, b: string)
    ensures SaveAsReplaceMessage(a) != SaveAsCreateMessage(b)
    ensures NewFileReplaceMessage(a) != NewFileCreateMessage(b)
    ensures SaveMessage(a) != DeleteMessage(b)
  {
    assert SaveAsReplaceMessage(a)[0] == 'F' && SaveAsCreateMessage(b)[0] == 'C';
    assert NewFileReplaceMessage(a)[0] == 'F' && NewFileCreateMessage(b)[0] == 'C';
    assert SaveMessage(a)[15] == 'r' && DeleteMessage(b)[15] == 'd';
  }

  /** `save_yaml_file`: a click asks to overwrite the selected file. */
  function SaveYamlFile(nClicks: Option<nat>, currentFile: Option<string>): (r: Dialog)
    ensures r.DialogPrevented? <==> !Truthy(nClicks)
    ensures r.Ask? ==> r.fileName.NoUpdate?
    ensures r.Ask? ==> forall f :: r.message == SaveMessage(f) <==> f == Show(currentFile)
  {
    if Truthy(nClicks) then
      var r := Ask(SaveMessage(Show(currentFile)), NoUpdate);
      assert forall f :: r.message == SaveMessage(f) ==> f == Show(currentFile) by {
        forall f | r.message == SaveMessage(f) ensures f == Show(currentFile) {
          MessagesNameTheFile(f, Show(currentFile));
        }
      }
      r
    else DialogPrevented
  }

  /** `delete_yaml_file`: a click asks to delete the selected file. */
  function DeleteYamlFile(nClicks: Option<nat>, currentFile: Option<string>): (r: Dialog)
    ensures r.DialogPrevented? <==> !Truthy(nClicks)
    ensures r.Ask? ==> r.fileName.NoUpdate?
    ensures r.Ask? ==> forall f :: r.message == DeleteMessage(f) <==> f == Show(currentFile)
  {
    if Truthy(nClicks) then
      var r := Ask(DeleteMessage(Show(currentFile)), NoUpdate);
      assert forall f :: r.message == DeleteMessage(f) ==> f == Show(currentFile) by {
        forall f | r.message == DeleteMessage(f) ensures f == Show(currentFile) {
          MessagesNameTheFile(f, Show(currentFile));
        }
      }
      r
    else DialogPrevented
  }

  /**
   * `save_yaml_file_as`: a click normalises the name, writes it back to the input, and asks either
   * to replace the indexed file or to create a new one.
   */
  function SaveYamlFileAs(nClicks: Option<nat>, index: Index, region: Option<string>, fileName: string): (r: Dialog)
    ensures r.DialogPrevented? <==> !Truthy(nClicks)
    ensures r.DialogCrashed? <==> Truthy(nClicks) && RegionFiles(index, region).None?
    ensures r.Ask? ==>
      var name := WithYamlExtension(fileName);
      && r.fileName == Set(name)
      && (r.message == SaveAsReplaceMessage(name) <==> name in RegionFiles(index, region).value)
      && (r.message == SaveAsCreateMessage(name) <==> name !in RegionFiles(index, region).value)
  {
    var name := WithYamlExtension(fileName);
    if !Truthy(nClicks) then DialogPrevented
    else match RegionFiles(index, region)
      case None => DialogCrashed
      case Some(files) =>
        ReplaceIsNotCreate(name, name);
        if name in files then Ask(SaveAsReplaceMessage(name), Set(name))
        else Ask(SaveAsCreateMessage(name), Set(name))
  }

  /**
   * `new_yaml_file`: after the dataset check approved the "add file" button, normalises the name and
   * asks either to replace the indexed file with an empty one or to create it.
   */
  function NewYamlFile(marker: Option<Source>, index: Index, region: Option<string>, fileName: string): (r: Dialog)
    ensures r.DialogPrevented? <==> marker != Some(BtnAddFile)
    ensures r.DialogCrashed? <==> marker == Some(BtnAddFile) && RegionFiles(index, region).None?
    ensures r.Ask? ==>
      var name := WithYamlExtension(fileName);
      && r.fileName == Set(name)
      && (r.message == NewFileReplaceMessage(name) <==> name in RegionFiles(index, region).value)
      && (r.message == NewFileCreateMessage(name) <==> name !in RegionFiles(index, region).value)
  {
    if marker != Some(BtnAddFile) then DialogPrevented
    else
      var name := WithYamlExtension(fileName);
      match RegionFiles(index, region)
      case None => DialogCrashed
      case Some(files) =>
        ReplaceIsNotCreate(name, name);
        if name in files then Ask(NewFileReplaceMessage(name), Set(name))
        else Ask(NewFileCreateMessage(name), Set(name))
  }

  /**
   * `upload_file`: after the dataset check approved the upload, a ".yaml" file whose text parses is
   * offered for upload (mentioning a replacement when the name is indexed); any other file is
   * rejected. Errors other than a YAML `ParserError` propagate.
   */
  function UploadFile(marker: Option<Source>, index: Index, region: Option<string>, fileName: string,
                      check: YamlCheck): (r: UploadReply)
    ensures r.UploadPrevented? <==> marker != Some(Confirm.UploadFile)
    ensures r.UploadAsk? <==>
      marker == Some(Confirm.UploadFile) && EndsWith(fileName, ".yaml") && check.YamlParsed? &&
      RegionFiles(index, region).Some?
    ensures r.UploadAsk? ==>
      r.message == UploadMessage(fileName, Show(region), fileName in RegionFiles(index, region).value)
    ensures r.UploadCrashed? <==>
      marker == Some(Confirm.UploadFile) && EndsWith(fileName, ".yaml") &&
      (check.YamlOtherError? || (check.YamlParsed? && RegionFiles(index, region).None?))
    ensures r.UploadRejected? <==>
      marker == Some(Confirm.UploadFile) && (!EndsWith(fileName, ".yaml") || check.YamlParserError?)
    ensures r.UploadRejected? ==> r.message == UploadRejectedMessage(fileName)
  {
    if marker != Some(Confirm.UploadFile) then UploadPrevented
    else if !EndsWith(fileName, ".yaml") then UploadRejected(UploadRejectedMessage(fileName))
    else match check
      case YamlParserError => UploadRejected(UploadRejectedMessage(fileName))
      case YamlOtherError => UploadCrashed
      case YamlParsed =>
        match RegionFiles(index, region)
        case None => UploadCrashed
        case Some(files) => UploadAsk(UploadMessage(fileName, Show(region), fileName in files))
  }

  /** The upload message says "replace" exactly when the uploaded name is already indexed. */
  lemma UploadMessageMentionsReplace(file: string, region: string)
    ensures UploadMessage(file, region, true) != UploadMessage(file, region, false)
  {
    var p := "Upload " + file + " to Map name " + region;
    assert |UploadMessage(file, region, true)| == |p| + 27;
    assert |UploadMessage(file, region, false)| == |p| + 1;
  }
}
