// The table from file extensions to MIME types, and the case-insensitive
// lookup that returns the first entry whose extension matches.
module ContentType {
  import opened Common

  /** One row of the table: an extension (without the dot) and its MIME type. */
  datatype Entry = Entry(ext: string, mimeType: string)

  const DEFAULT_TYPE: string := "application/octet-stream"

  /** The table in declaration order; the first row is the default one. */
  const TABLE: seq<Entry> := [
    Entry("default", DEFAULT_TYPE),
    Entry("jpg", "image/jpeg"),
    Entry("tiff", "image/tiff"),
    Entry("gif", "image/gif"),
    Entry("jfif", "image/jpeg"),
    Entry("png", "image/png"),
    Entry("tif", "image/tiff"),
    Entry("ico", "image/x-icon"),
    Entry("jpeg", "image/jpeg"),
    Entry("wbmp", "image/vnd.wap.wbmp"),
    Entry("fax", "image/fax"),
    Entry("net", "image/pnetvue"),
    Entry("jpe", "image/jpeg"),
    Entry("rp", "image/vnd.rn-realpix")]

  /** ASCII lower-casing of one character; other characters are left alone. */
  function ToLowerAscii(c: char): char
  {
    if 'A' <= c <= 'Z' then (c as int + 32) as char else c
  }

  function LowerAscii(s: string): (r: string)
    ensures |r| == |s| && forall i :: 0 <= i < |s| ==> r[i] == ToLowerAscii(s[i])
  {
    if |s| == 0 then "" else [ToLowerAscii(s[0])] + LowerAscii(s[1..])
  }

  /** `String.equalsIgnoreCase` restricted to ASCII case: same length, same characters up to case. */
  predicate EqualsIgnoreCase(a: string, b: string)
  {
    |a| == |b| && forall i :: 0 <= i < |a| ==> ToLowerAscii(a[i]) == ToLowerAscii(b[i])
  }

  /** The MIME type of the first row whose extension matches, if any. */
  function FirstMatch(ext: string, table: seq<Entry>): (r: Option<string>)
    ensures r.Some? ==> exists i :: 0 <= i < |table| && EqualsIgnoreCase(ext, table[i].ext) && r.value == table[i].mimeType
  {
    if |table| == 0 then None
    else if EqualsIgnoreCase(ext, table[0].ext) then Some(table[0].mimeType)
    else
      var r := FirstMatch(ext, table[1..]);
      if r.Some? then
        var i :| 0 <= i < |table[1..]| && EqualsIgnoreCase(ext, table[1..][i].ext) && r.value == table[1..][i].mimeType;
        assert table[1..][i] == table[i + 1];
        r
      else r
  }

  /**
   * getContentType: the default type for a null or empty extension; otherwise
   * the type of the first matching row, or the default type when none matches.
   */
  function GetContentType(ext: Option<string>): (mimeType: string)
    ensures ext.None? || ext.value == "" ==> mimeType == DEFAULT_TYPE
    ensures exists i :: 0 <= i < |TABLE| && mimeType == TABLE[i].mimeType
  {
    assert DEFAULT_TYPE == TABLE[0].mimeType;
    if ext.None? || ext.value == "" then DEFAULT_TYPE
    else
      match FirstMatch(ext.value, TABLE)
      case Some(t) => t
      case None => DEFAULT_TYPE
  }

  /** FirstMatch gives the type of the earliest matching row, and None when no row matches. */
  lemma {:induction false} FirstMatchIsEarliest(ext: string, table: seq<Entry>, i: int)
    requires 0 <= i < |table| && EqualsIgnoreCase(ext, table[i].ext)
    requires forall j :: 0 <= j < i ==> !EqualsIgnoreCase(ext, table[j].ext)
    ensures FirstMatch(ext, table) == Some(table[i].mimeType)
  {
    if i > 0 {
      assert !EqualsIgnoreCase(ext, table[0].ext);
      FirstMatchIsEarliest(ext, table[1..], i - 1);
    }
  }

  lemma {:induction false} FirstMatchNone(ext: string, table: seq<Entry>)
    requires forall j :: 0 <= j < |table| ==> !EqualsIgnoreCase(ext, table[j].ext)
    ensures FirstMatch(ext, table) == None
  {
    if |table| > 0 {
      assert !EqualsIgnoreCase(ext, table[0].ext);
      FirstMatchNone(ext, table[1..]);
    }
  }

  /** A non-empty extension gets the type of the earliest row it matches. */
  lemma ContentTypeOfMatch(ext: string, i: int)
    requires ext != "" && 0 <= i < |TABLE| && EqualsIgnoreCase(ext, TABLE[i].ext)
    requires forall j :: 0 <= j < i ==> !EqualsIgnoreCase(ext, TABLE[j].ext)
    ensures GetContentType(Some(ext)) == TABLE[i].mimeType
  {
    FirstMatchIsEarliest(ext, TABLE, i);
  }

  /** An extension matching no row, a dotted one such as ".png" included, gets the default type. */
  lemma ContentTypeOfNoMatch(ext: string)
    requires forall j :: 0 <= j < |TABLE| ==> !EqualsIgnoreCase(ext, TABLE[j].ext)
    ensures GetContentType(Some(ext)) == DEFAULT_TYPE
  {
    FirstMatchNone(ext, TABLE);
  }

  /** Matching ignores case: an extension and its lower-case form get the same type. */
  lemma {:induction false} FirstMatchIgnoresCase(ext: string, table: seq<Entry>)
    ensures FirstMatch(ext, table) == FirstMatch(LowerAscii(ext), table)
  {
    if |table| > 0 {
      var lower := LowerAscii(ext);
      assert forall i :: 0 <= i < |ext| ==> ToLowerAscii(lower[i]) == ToLowerAscii(ext[i]);
      assert EqualsIgnoreCase(ext, table[0].ext) == EqualsIgnoreCase(lower, table[0].ext);
      FirstMatchIgnoresCase(ext, table[1..]);
    }
  }

  lemma ContentTypeIgnoresCase(ext: string)
    ensures GetContentType(Some(ext)) == GetContentType(Some(LowerAscii(ext)))
  {
    FirstMatchIgnoresCase(ext, TABLE);
  }

  /** "PNG" is image/png, while ".png" matches nothing and gets the default type. */
  lemma PngExamples()
    ensures GetContentType(Some("PNG")) == "image/png"
    ensures GetContentType(Some(".png")) == DEFAULT_TYPE
  {
    UpperCasePng();
    DottedPng();
  }

  lemma UpperCasePng()
    ensures GetContentType(Some("PNG")) == "image/png"
  {
    ContentTypeOfMatch("PNG", 5);
  }

  lemma DottedPng()
    ensures GetContentType(Some(".png")) == DEFAULT_TYPE
  {
    forall j | 0 <= j < |TABLE|
      ensures !EqualsIgnoreCase(".png", TABLE[j].ext)
    {
      assert ToLowerAscii(".png"[0]) == '.' != ToLowerAscii(TABLE[j].ext[0]);
    }
    ContentTypeOfNoMatch(".png");
  }

  /** jpg, jfif, jpeg and jpe all map to image/jpeg. */
  lemma JpegFamily()
    ensures GetContentType(Some("jpg")) == "image/jpeg"
    ensures GetContentType(Some("jfif")) == "image/jpeg"
    ensures GetContentType(Some("jpeg")) == "image/jpeg"
    ensures GetContentType(Some("jpe")) == "image/jpeg"
  {
    JpgMatch();
    JfifMatch();
    JpegMatch();
    JpeMatch();
  }

  lemma JpgMatch()
    ensures GetContentType(Some("jpg")) == "image/jpeg"
  {
    ContentTypeOfMatch("jpg", 1);
  }

  lemma JfifMatch()
    ensures GetContentType(Some("jfif")) == "image/jpeg"
  {
    assert ToLowerAscii("jfif"[0]) != ToLowerAscii(TABLE[2].ext[0]);
    ContentTypeOfMatch("jfif", 4);
  }

  lemma JpegMatch()
    ensures GetContentType(Some("jpeg")) == "image/jpeg"
  {
    forall j | 0 <= j < 8
      ensures !EqualsIgnoreCase("jpeg", TABLE[j].ext)
    {
      if |TABLE[j].ext| == 4 {
        assert ToLowerAscii("jpeg"[1]) != ToLowerAscii(TABLE[j].ext[1]);
      }
    }
    ContentTypeOfMatch("jpeg", 8);
  }

  lemma JpeMatch()
    ensures GetContentType(Some("jpe")) == "image/jpeg"
  {
    forall j | 0 <= j < 12
      ensures !EqualsIgnoreCase("jpe", TABLE[j].ext)
    {
      if |TABLE[j].ext| == 3 {
        assert ToLowerAscii("jpe"[2]) != ToLowerAscii(TABLE[j].ext[2]);
      }
    }
    ContentTypeOfMatch("jpe", 12);
  }

  /** tif and tiff both map to image/tiff. */
  lemma TiffFamily()
    ensures GetContentType(Some("tif")) == "image/tiff"
    ensures GetContentType(Some("tiff")) == "image/tiff"
  {
    TifMatch();
    TiffMatch();
  }

  lemma TiffMatch()
    ensures GetContentType(Some("tiff")) == "image/tiff"
  {
    ContentTypeOfMatch("tiff", 2);
  }

  lemma TifMatch()
    ensures GetContentType(Some("tif")) == "image/tiff"
  {
    forall j | 0 <= j < 6
      ensures !EqualsIgnoreCase("tif", TABLE[j].ext)
    {
      if |TABLE[j].ext| == 3 {
        assert ToLowerAscii("tif"[0]) != ToLowerAscii(TABLE[j].ext[0]);
      }
    }
    ContentTypeOfMatch("tif", 6);
  }

  /** Only the four JPEG extensions, in any case, give image/jpeg. */
  lemma JpegOnlyFromJpegFamily(ext: string)
    requires GetContentType(Some(ext)) == "image/jpeg"
    ensures EqualsIgnoreCase(ext, "jpg") || EqualsIgnoreCase(ext, "jfif")
      || EqualsIgnoreCase(ext, "jpeg") || EqualsIgnoreCase(ext, "jpe")
  {
    var r := FirstMatch(ext, TABLE);
    assert r.Some?;
    var i :| 0 <= i < |TABLE| && EqualsIgnoreCase(ext, TABLE[i].ext) && r.value == TABLE[i].mimeType;
    JpegRows(i);
  }

  /** The rows typed image/jpeg are rows 1, 4, 8 and 12: jpg, jfif, jpeg and jpe. */
  lemma JpegRows(i: int)
    requires 0 <= i < |TABLE| && TABLE[i].mimeType == "image/jpeg"
    ensures i == 1 || i == 4 || i == 8 || i == 12
    ensures TABLE[i].ext in {"jpg", "jfif", "jpeg", "jpe"}
  {
  }
}
