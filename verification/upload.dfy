/**
 * The upload gate (src/app/services/upload/upload.service.ts): a batch of
 * files is accepted only when every file name ends in an allowed extension.
 * File reading, the toasts and the upload stream are left to the caller;
 * a file is its name and its text content here.
 */
module Upload {
  import JsString

  /** `allowedExtensions`: compared case-sensitively. */
  const AllowedExtensions: seq<string> := ["txt", "pn", "pnml"]

  /** `allowedExtensions.includes(ext)`. */
  predicate Allowed(ext: string) {
    ext in AllowedExtensions
  }

  /** A file of the batch: its name and the text the reader would deliver. */
  datatype UploadFile = UploadFile(name: string, content: string)

  /**
   * `getExtensionForFileName`, i.e. `fileName.split('.').pop()`: the text after
   * the last dot, or the whole name when it has no dot.
   */
  function Extension(name: string): (r: string)
    ensures '.' !in r
  {
    var parts := JsString.Split(name, '.');
    parts[|parts| - 1]
  }

  /** The extension is the dot-free end of the name that is either all of it or follows a dot. */
  lemma ExtensionIsLastSegment(name: string)
    ensures var r := Extension(name);
            && |r| <= |name| && r == name[|name| - |r|..]
            && (|r| < |name| ==> name[|name| - |r| - 1] == '.')
  {
    JsString.SplitLastIsSuffix(name, '.');
  }

  /** `fileExtensionIsValid`: an empty extension is refused, otherwise the trimmed extension must be allowed. */
  predicate ExtensionIsValid(name: string) {
    var ext := Extension(name);
    ext != "" && Allowed(JsString.Trim(ext))
  }

  /** The emptiness test is subsumed: a name passes exactly when its trimmed extension is allowed. */
  lemma ValidIffTrimmedAllowed(name: string)
    ensures ExtensionIsValid(name) <==> Allowed(JsString.Trim(Extension(name)))
  {
    if Extension(name) == "" {
      assert JsString.Trim("") == "";
    }
  }

  /** The error toast `checkFiles` raises for a refused file. */
  function Rejection(name: string): string {
    "File '" + name + "' has to be a valid extension"
  }

  /** The toasts of a batch, one per refused file, in file order. */
  function Rejections(files: seq<UploadFile>): (r: seq<string>)
    ensures |r| <= |files|
    ensures r == [] <==> forall i :: 0 <= i < |files| ==> ExtensionIsValid(files[i].name)
    decreases |files|
  {
    if |files| == 0 then []
    else
      var rest := Rejections(files[1..]);
      assert forall i :: 1 <= i < |files| ==> files[i] == files[1..][i - 1];
      if ExtensionIsValid(files[0].name) then rest else [Rejection(files[0].name)] + rest
  }

  lemma RejectionsStep(files: seq<UploadFile>, i: int)
    requires 0 <= i < |files|
    ensures Rejections(files[i..]) ==
              (if ExtensionIsValid(files[i].name) then [] else [Rejection(files[i].name)]) + Rejections(files[i + 1..])
  {
    assert files[i..][1..] == files[i + 1..];
  }

  /** `checkFiles`: every file is looked at (no early exit), each refused one is reported. */
  method CheckFiles(files: seq<UploadFile>) returns (check: bool, toasts: seq<string>)
    ensures check <==> forall i :: 0 <= i < |files| ==> ExtensionIsValid(files[i].name)
    ensures toasts == Rejections(files)
  {
    check := true;
    toasts := [];
    var i := 0;
    while i < |files|
      invariant 0 <= i <= |files|
      invariant check <==> forall k :: 0 <= k < i ==> ExtensionIsValid(files[k].name)
      invariant toasts + Rejections(files[i..]) == Rejections(files)
    {
      RejectionsStep(files, i);
      if !ExtensionIsValid(files[i].name) {
        check := false;
        toasts := toasts + [Rejection(files[i].name)];
      }
      i := i + 1;
    }
    assert files[i..] == [];
  }

  /** `completion` names every file index exactly once: the order in which the reads finish. */
  ghost predicate IsCompletionOrder(completion: seq<nat>, count: nat) {
    && |completion| == count
    && (forall i :: 0 <= i < count ==> completion[i] < count)
    && (forall i, j :: 0 <= i < j < count ==> completion[i] != completion[j])
  }

  /**
   * `uploadFiles`: nothing is emitted unless the whole batch passes, then
   * every content once. Each content is emitted from its reader's `onload`,
   * so the emission order is the order the reads complete, which the
   * file system decides and which is a parameter here.
   */
  method UploadFiles(files: seq<UploadFile>, completion: seq<nat>) returns (emitted: seq<string>, toasts: seq<string>)
    requires IsCompletionOrder(completion, |files|)
    ensures (exists i :: 0 <= i < |files| && !ExtensionIsValid(files[i].name)) ==> emitted == []
    ensures (forall i :: 0 <= i < |files| ==> ExtensionIsValid(files[i].name)) ==>
              |emitted| == |files| && forall i :: 0 <= i < |files| ==> emitted[i] == files[completion[i]].content
    ensures toasts == Rejections(files)
  {
    var check;
    check, toasts := CheckFiles(files);
    if !check {
      emitted := [];
      return;
    }
    emitted := EmitContents(files, completion);
  }

  /** The `onload` handlers firing one after another: each file's content, in completion order. */
  method EmitContents(files: seq<UploadFile>, completion: seq<nat>) returns (emitted: seq<string>)
    requires IsCompletionOrder(completion, |files|)
    ensures |emitted| == |files| && forall i :: 0 <= i < |files| ==> emitted[i] == files[completion[i]].content
  {
    emitted := [];
    var i := 0;
    while i < |files|
      invariant 0 <= i <= |files|
      invariant |emitted| == i && forall k :: 0 <= k < i ==> emitted[k] == files[completion[k]].content
    {
      emitted := emitted + [files[completion[i]].content];
      i := i + 1;
    }
  }

  /** The extension of `base.ext` is `ext` whenever `ext` has no dot, whatever dots `base` holds. */
  lemma ExtensionOfDotted(base: string, ext: string)
    requires '.' !in ext
    ensures Extension(base + ['.'] + ext) == ext
  {
    var name := base + ['.'] + ext;
    ExtensionIsLastSegment(name);
    assert name[|name| - |ext| - 1] == '.';
    assert name[|name| - |ext|..] == ext;
  }

  /** Each allowed extension after a dot is accepted, whatever comes before it. */
  lemma AllowedNamesPass(base: string, ext: string)
    requires Allowed(ext)
    ensures ExtensionIsValid(base + ['.'] + ext)
  {
    TrimAllowed(ext);
    ExtensionOfDotted(base, ext);
    AcceptedExtension(base + ['.'] + ext, ext);
  }

  /** The allowed extensions carry no surrounding whitespace. */
  lemma TrimAllowed(ext: string)
    requires Allowed(ext)
    ensures ext != [] && '.' !in ext
    ensures JsString.Trim(ext) == ext
  {
    assert ext[0] in "tp" && ext[|ext| - 1] in "tnl";
    JsString.TrimmedIsFixed(ext);
  }

  /** A name whose extension is a non-empty string that trims to an allowed one passes. */
  lemma AcceptedExtension(name: string, ext: string)
    requires Extension(name) == ext && ext != [] && Allowed(JsString.Trim(ext))
    ensures ExtensionIsValid(name)
  {
  }

  /** A name without a dot is its own extension. */
  lemma DotlessNameIsItsOwnExtension(name: string)
    requires '.' !in name
    ensures Extension(name) == name
  {
    JsString.SplitWithoutSeparator(name, '.');
  }

  /** So a file called just `txt`, `pn` or `pnml`, with no extension at all, passes the gate. */
  lemma BareAllowedNamePasses(name: string)
    requires Allowed(name)
    ensures ExtensionIsValid(name)
  {
    TrimAllowed(name);
    DotlessNameIsItsOwnExtension(name);
    AcceptedExtension(name, name);
  }

  /** A name ending in a dot has an empty extension and is refused. */
  lemma TrailingDotRefused(base: string)
    ensures !ExtensionIsValid(base + ['.'])
  {
    var name := base + ['.'];
    ExtensionIsLastSegment(name);
    assert name[|name| - 1] == '.';
    assert Extension(name) == "";
  }

  /** A name whose extension trims to something not allowed is refused. */
  lemma RefusedExtension(name: string, ext: string)
    requires Extension(name) == ext && !Allowed(JsString.Trim(ext))
    ensures !ExtensionIsValid(name)
  {
  }

  /**
   * Any other dot-free extension without surrounding whitespace is refused;
   * the comparison is case-sensitive, so `name.PN` or `name.TXT` is among them.
   */
  lemma OtherExtensionsRefused(base: string, ext: string)
    requires '.' !in ext && !Allowed(ext)
    requires ext == [] || (!JsString.IsWhitespace(ext[0]) && !JsString.IsWhitespace(ext[|ext| - 1]))
    ensures !ExtensionIsValid(base + ['.'] + ext)
  {
    JsString.TrimmedIsFixed(ext);
    ExtensionOfDotted(base, ext);
    RefusedExtension(base + ['.'] + ext, ext);
  }
}
