/** The MIME type `send_request` (ocr_utils.py) attaches to each uploaded
    file: the path is lower-cased, its extension taken as
    `os.path.splitext` (POSIX) does, and looked up in a seven-entry table
    with a default. */
module Mime {
  import opened Text

  const DefaultMimeType: string := "application/octet-stream"

  /** The `mime_types` table. */
  const MimeTypes: map<string, string> := map[
    ".jpg" := "image/jpeg",
    ".jpeg" := "image/jpeg",
    ".png" := "image/png",
    ".bmp" := "image/bmp",
    ".gif" := "image/gif",
    ".tiff" := "image/tiff",
    ".pdf" := "application/pdf"
  ]

  /** `s.rfind(c)`: the last position of `c`, or -1. */
  function LastIndex(s: string, c: char): (r: int)
    ensures -1 <= r < |s|
    ensures r >= 0 ==> s[r] == c
    ensures forall k :: r < k < |s| ==> s[k] != c
  {
    if s == [] then -1
    else if s[|s| - 1] == c then |s| - 1
    else LastIndex(s[..|s| - 1], c)
  }

  /** The extension `os.path.splitext(p)` returns: from the last dot of the
      last path component to the end, unless that component has only dots
      before it (a hidden file such as ".png" has no extension). */
  function Extension(p: string): (ext: string)
    ensures ext == [] || (|ext| <= |p| && ext == p[|p| - |ext|..])
    ensures ext != [] ==> ext[0] == '.' && '/' !in ext && '.' !in ext[1..]
    ensures ext != [] ==> exists k :: 0 <= k < |p| - |ext| && p[k] != '.' && '/' !in p[k..|p| - |ext|]
    ensures ext == [] ==>
              forall k, m :: 0 <= m < k < |p| && p[k] == '.' && '/' !in p[m..] ==> p[m] == '.'
  {
    var sep := LastIndex(p, '/');
    var dot := LastIndex(p, '.');
    if dot > sep && exists k :: sep < k < dot && p[k] != '.' then
      var ext := p[dot..];
      assert '/' !in ext by {
        forall k | 0 <= k < |ext| ensures ext[k] != '/' { assert ext[k] == p[dot + k]; }
      }
      assert '.' !in ext[1..] by {
        forall k | 1 <= k < |ext| ensures ext[k] != '.' { assert ext[k] == p[dot + k]; }
      }
      var k :| sep < k < dot && p[k] != '.';
      assert '/' !in p[k..dot] by {
        forall j | 0 <= j < dot - k ensures p[k..dot][j] != '/' { assert p[k..dot][j] == p[k + j]; }
      }
      ext
    else []
  }

  /** `mime_types.get(ext, 'application/octet-stream')` on the extension of
      the lower-cased path. */
  function MimeType(path: string): string
  {
    var ext := Extension(Lower(path));
    if ext in MimeTypes then MimeTypes[ext] else DefaultMimeType
  }

  /** Upper and lower case in the path give the same MIME type. */
  lemma MimeTypeIgnoresCase(path: string)
    ensures MimeType(path) == MimeType(Lower(path))
  {
    LowerIdempotent(path);
  }

  /** No entry of the table is the default type. */
  lemma TableAvoidsDefault()
    ensures forall e :: e in MimeTypes ==> MimeTypes[e] != DefaultMimeType
  {
    forall e | e in MimeTypes
      ensures MimeTypes[e] != DefaultMimeType
    {
      assert e in {".jpg", ".jpeg", ".png", ".bmp", ".gif", ".tiff", ".pdf"};
    }
  }

  /** A path gets a specific type exactly when its lower-cased extension is
      one of the seven in the table; every other path gets the default. */
  lemma MimeTypeKnown(path: string)
    ensures MimeType(path) != DefaultMimeType <==> Extension(Lower(path)) in MimeTypes
    ensures MimeType(path) in MimeTypes.Values || MimeType(path) == DefaultMimeType
  {
    var ext := Extension(Lower(path));
    if ext in MimeTypes {
      TableAvoidsDefault();
      assert MimeTypes[ext] in MimeTypes.Values;
    }
  }

  lemma UpperPdfExtension()
    ensures Extension(Lower("x.PDF")) == ".pdf"
  {
    assert Lower("x.PDF") == "x.pdf";
    assert LastIndex("x.pdf", '/') == -1;
    assert LastIndex("x.pdf", '.') == 1;
    assert "x.pdf"[0] != '.';
    assert "x.pdf"[1..] == ".pdf";
  }

  /** An upper-case extension is found. */
  lemma UpperCaseExtensionExample()
    ensures MimeType("x.PDF") == "application/pdf"
  {
    UpperPdfExtension();
  }

  lemma TwoDotsExtension()
    ensures Extension(Lower("a.b.GIF")) == ".gif"
  {
    assert Lower("a.b.GIF") == "a.b.gif";
    assert LastIndex("a.b.gif", '/') == -1;
    assert LastIndex("a.b.gif", '.') == 3;
    assert "a.b.gif"[0] != '.';
    assert "a.b.gif"[3..] == ".gif";
  }

  /** Only the part after the last dot counts. */
  lemma LastDotExample()
    ensures MimeType("a.b.GIF") == "image/gif"
  {
    TwoDotsExtension();
  }

  /** A hidden file named like an extension has none. */
  lemma HiddenFileExample()
    ensures MimeType(".png") == DefaultMimeType
  {
    assert Lower(".png") == ".png";
    assert LastIndex(".png", '/') == -1;
    assert LastIndex(".png", '.') == 0;
    assert Extension(".png") == [];
  }
}
