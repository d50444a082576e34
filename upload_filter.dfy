/**
 * The API's upload file filter (backend/src/middleware/upload.js): a file
 * is accepted when its MIME type and the extension of its original name
 * both contain "pdf".  The extension is taken as Node's POSIX
 * `path.extname` takes it.
 */
module UploadFilter {
  import opened Wrappers
  import opened Text
  import Utils

  /** The answer given to multer's callback: `cb(null, true)` or
      `cb(new Error(message))`. */
  datatype FilterResult = Accept | Reject(error: string)

  const OnlyPdfMessage: string := "Only PDF files are allowed!"

  /** `p` without its trailing `/` characters. */
  function StripTrailingSlashes(p: string): (r: string)
    ensures r <= p && (r == [] || r[|r| - 1] != '/')
    ensures forall i :: |r| <= i < |p| ==> p[i] == '/'
  {
    if p != [] && p[|p| - 1] == '/' then StripTrailingSlashes(p[..|p| - 1]) else p
  }

  /** The last component of a path, as `path.extname` delimits it. */
  function BaseName(p: string): (r: string)
    ensures '/' !in p ==> r == p
    ensures '/' !in r
  {
    var q := StripTrailingSlashes(p);
    match LastIndexOf(q, '/')
    case None => q
    case Some(k) => q[k + 1..]
  }

  /** The base name is the part of the path after its last `/`, once the
      trailing slashes are gone. */
  lemma BaseNameIsLastComponent(p: string)
    ensures var q, r := StripTrailingSlashes(p), BaseName(p);
      && |r| <= |q| && r == q[|q| - |r|..]
      && (|r| < |q| ==> q[|q| - |r| - 1] == '/')
  {
    var q := StripTrailingSlashes(p);
    match LastIndexOf(q, '/')
    case None =>
      assert BaseName(p) == q;
    case Some(k) =>
      var r := q[k + 1..];
      assert BaseName(p) == r;
      assert |q| - |r| - 1 == k;
  }

  /** `path.extname(p)`: from the last `.` of the last component to its end;
      empty when there is no `.`, when the only `.` opens the name (".pdf"),
      and for "..". */
  function ExtName(p: string): string {
    var base := BaseName(p);
    match LastIndexOf(base, '.')
    case None => ""
    case Some(d) => if d == 0 || base == ".." then "" else base[d..]
  }

  /** `/pdf/.test(s)`. */
  predicate MentionsPdf(s: string) {
    Contains(s, "pdf")
  }

  /** `fileFilter(req, file, cb)`. */
  function FileFilter(mimetype: string, originalName: string): FilterResult {
    if MentionsPdf(mimetype) && MentionsPdf(Lower(ExtName(originalName))) then Accept
    else Reject(OnlyPdfMessage)
  }

  /** A file is accepted exactly when both tests pass; every rejection
      carries the one error message. */
  lemma FileFilterDecision(mimetype: string, originalName: string)
    ensures FileFilter(mimetype, originalName) == Accept <==>
      MentionsPdf(mimetype) && MentionsPdf(Lower(ExtName(originalName)))
    ensures FileFilter(mimetype, originalName) != Accept ==>
      FileFilter(mimetype, originalName) == Reject(OnlyPdfMessage)
  {
  }

  /** For a plain name "stem.ext" the extension is ".ext". */
  lemma ExtNameOfPlainName(stem: string, ext: string)
    requires '/' !in stem && '/' !in ext && '.' !in ext
    requires stem != "" && stem != "."
    ensures ExtName(stem + "." + ext) == "." + ext
  {
    var name := stem + "." + ext;
    assert '/' !in name;
    assert BaseName(name) == name;
    LastIndexOfBefore(stem, '.', ext);
    assert name[..|stem|] == stem;
    assert name[|stem|..] == "." + ext;
  }

  /** `path.extname` gives a string that starts with `.`, or nothing. */
  lemma ExtNameShape(p: string)
    ensures ExtName(p) == "" || ExtName(p)[0] == '.'
  {
  }

  /** `path.extname` of a name without a `.` is empty. */
  lemma ExtNameWithoutDot(p: string)
    requires '.' !in p
    ensures ExtName(p) == ""
  {
    var q := StripTrailingSlashes(p);
    assert forall i :: 0 <= i < |q| ==> q[i] == p[i];
    var base := BaseName(p);
    assert '.' !in base by {
      match LastIndexOf(q, '/')
      case None =>
      case Some(k) =>
        assert forall i :: 0 <= i < |base| ==> base[i] == q[k + 1 + i];
    }
  }

  /** A name without an extension is rejected whatever its MIME type. */
  lemma NoExtensionRejected(mimetype: string, originalName: string)
    requires '.' !in originalName
    ensures FileFilter(mimetype, originalName) == Reject(OnlyPdfMessage)
  {
    ExtNameWithoutDot(originalName);
    assert Lower("") == "";
  }

  /** The extension test ignores case: "CV.PDF" is accepted. */
  lemma UpperCaseExtensionAccepted()
    ensures FileFilter("application/pdf", "CV.PDF") == Accept
  {
    ExtNameOfPlainName("CV", "PDF");
    assert "CV" + "." + "PDF" == "CV.PDF";
    assert Lower(".PDF") == ".pdf";
    assert "pdf" <= ".pdf"[1..];
    assert "pdf" <= "application/pdf"[12..];
  }

  /** A name that is only an extension, such as ".pdf", has no extension by
      `path.extname`'s rule and is rejected. */
  lemma DotFileRejected(mimetype: string)
    ensures FileFilter(mimetype, ".pdf") == Reject(OnlyPdfMessage)
  {
    LastIndexOfBefore("", '.', "pdf");
    assert "" + "." + "pdf" == ".pdf";
    assert BaseName(".pdf") == ".pdf";
    assert Lower("") == "";
  }

  /** A directory part does not change the extension: only the last
      component counts. */
  lemma ExtNameIgnoresDirectory(dir: string, name: string)
    requires name != "" && '/' !in name
    ensures ExtName(dir + "/" + name) == ExtName(name)
  {
    var p := dir + "/" + name;
    assert p[|p| - 1] == name[|name| - 1];
    assert StripTrailingSlashes(p) == p;
    LastIndexOfBefore(dir, '/', name);
    assert p[|dir| + 1..] == name;
  }

  /** Trailing slashes are dropped before the extension is taken, so
      "a/b.pdf/" has the extension of "a/b.pdf". */
  lemma ExtNameIgnoresTrailingSlash(p: string)
    ensures ExtName(p + "/") == ExtName(p)
  {
    var q := p + "/";
    assert q[..|q| - 1] == p;
    assert StripTrailingSlashes(q) == StripTrailingSlashes(p);
    assert BaseName(q) == BaseName(p);
  }

  /** Lower-case text of one path component, without a dot. */
  predicate PlainLower(s: string) {
    forall i :: 0 <= i < |s| ==> s[i] != '/' && s[i] != '.' && !('A' <= s[i] <= 'Z')
  }

  /** Lower-casing leaves text without capitals unchanged. */
  lemma LowerOfLower(s: string)
    requires forall i :: 0 <= i < |s| ==> !('A' <= s[i] <= 'Z')
    ensures Lower(s) == s
  {
  }

  /** Both tests look for "pdf" anywhere: any lower-case extension that
      contains it is accepted, not only ".pdf". */
  lemma ExtensionContainingPdfAccepted(mimetype: string, stem: string, pre: string, post: string)
    requires MentionsPdf(mimetype)
    requires '/' !in stem && stem != "" && stem != "."
    requires PlainLower(pre) && PlainLower(post)
    ensures FileFilter(mimetype, stem + "." + (pre + "pdf" + post)) == Accept
  {
    var ext := pre + "pdf" + post;
    PlainLowerAround(pre, post);
    PlainLowerIsPlain(ext);
    PdfInside("." + pre, post);
    assert "." + pre + "pdf" + post == "." + ext;
    PlainExtensionAccepted(mimetype, stem, ext);
  }

  lemma PlainLowerIsPlain(s: string)
    requires PlainLower(s)
    ensures '/' !in s && '.' !in s
  {
  }

  lemma PlainExtensionAccepted(mimetype: string, stem: string, ext: string)
    requires MentionsPdf(mimetype) && MentionsPdf("." + ext)
    requires '/' !in stem && stem != "" && stem != "."
    requires '/' !in ext && '.' !in ext && PlainLower(ext)
    ensures FileFilter(mimetype, stem + "." + ext) == Accept
  {
    ExtNameOfPlainName(stem, ext);
    DottedPlainLower(ext);
  }

  lemma PlainLowerAround(pre: string, post: string)
    requires PlainLower(pre) && PlainLower(post)
    ensures PlainLower(pre + "pdf" + post)
  {
    var ext := pre + "pdf" + post;
    forall i | 0 <= i < |ext|
      ensures ext[i] != '/' && ext[i] != '.' && !('A' <= ext[i] <= 'Z')
    {
      if i < |pre| {
        assert ext[i] == pre[i];
      } else if i < |pre| + 3 {
        assert ext[i] == "pdf"[i - |pre|];
      } else {
        assert ext[i] == post[i - |pre| - 3];
      }
    }
  }

  lemma DottedPlainLower(ext: string)
    requires PlainLower(ext)
    ensures Lower("." + ext) == "." + ext
  {
    LowerOfLower("." + ext);
  }

  lemma PdfInside(pre: string, post: string)
    ensures MentionsPdf(pre + "pdf" + post)
  {
    assert "pdf" <= (pre + "pdf" + post)[|pre|..];
  }

  /** A file the browser-side check accepts (type "application/pdf")
      passes the server's MIME type test. */
  lemma BrowserCheckPassesMimetypeTest(file: Utils.BrowserFile)
    requires Utils.IsValidPdf(Some(file))
    ensures MentionsPdf(file.mimeType)
  {
    assert "pdf" <= file.mimeType[12..];
  }
}
