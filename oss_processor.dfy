// The server's static helpers: the name part of an object key, and the three
// bucket-policy documents it generates (principal written as {"AWS": ["*"]}).
module OssProcessor {
  import opened Common
  import opened PolicyText

  /**
   * Java `String.split(regex)` on a one-character separator: the text itself
   * when the separator does not occur (so "" gives [""]), otherwise the
   * pieces with trailing empty pieces dropped.
   */
  function JavaSplit(s: string, c: char): seq<string>
  {
    if c !in s then [s] else DropTrailingEmpty(SplitOn(s, c))
  }

  function DropTrailingEmpty(parts: seq<string>): (r: seq<string>)
    ensures |r| <= |parts| && r == parts[..|r|]
    ensures |r| > 0 ==> r[|r| - 1] != ""
  {
    if |parts| > 0 && parts[|parts| - 1] == "" then DropTrailingEmpty(parts[..|parts| - 1]) else parts
  }

  /** A trailing separator only adds an empty last piece, which Java's split drops. */
  lemma SplitTrailingSeparator(s: string, c: char)
    requires |s| > 0 && s[|s| - 1] == c
    ensures DropTrailingEmpty(SplitOn(s, c)) == DropTrailingEmpty(SplitOn(s[..|s| - 1], c))
    ensures TrimTrailing(s, c) == TrimTrailing(s[..|s| - 1], c)
  {
    assert LastIndexOf(s, c) == |s| - 1;
    assert s[|s|..] == "";
    assert SplitOn(s, c) == SplitOn(s[..|s| - 1], c) + [""];
    assert (SplitOn(s[..|s| - 1], c) + [""])[..|SplitOn(s, c)| - 1] == SplitOn(s[..|s| - 1], c);
  }

  /** Without a trailing separator the last piece is non-empty and is what follows the last separator. */
  lemma SplitLastPiece(s: string, c: char)
    requires |s| > 0 && s[|s| - 1] != c
    ensures var parts := SplitOn(s, c);
      DropTrailingEmpty(parts) == parts && parts[|parts| - 1] == AfterLast(s, c)
  {
    var i := LastIndexOf(s, c);
    var parts := SplitOn(s, c);
    if i < 0 {
      assert parts == [s];
    } else {
      assert parts == SplitOn(s[..i], c) + [s[i + 1..]];
      assert |s[i + 1..]| > 0;
    }
    assert parts[|parts| - 1] != "";
  }

  /**
   * Independent description of the last piece Java's split keeps: trim the
   * trailing '/', then take what follows the last remaining '/'. Nothing is
   * kept exactly when the text is one or more '/' and nothing else; the
   * empty text splits into the one piece "".
   */
  lemma JavaSplitLast(s: string)
    ensures var t := TrimTrailing(s, '/');
      var parts := JavaSplit(s, '/');
      (|parts| == 0 <==> s != "" && t == "")
      && (|parts| > 0 ==> parts[|parts| - 1] == AfterLast(t, '/'))
  {
    if '/' in s {
      PiecesLast(s);
    } else {
      NoSeparator(s);
    }
  }

  /** Text without '/' is one piece, unchanged by trimming, and entirely what follows the (absent) last '/'. */
  lemma NoSeparator(s: string)
    requires '/' !in s
    ensures JavaSplit(s, '/') == [s] && TrimTrailing(s, '/') == s && AfterLast(s, '/') == s
  {
    if |s| > 0 {
      assert s[|s| - 1] in s;
    }
    assert s[0..] == s;
  }

  /** The same description for the pieces with trailing empties dropped, where "" keeps nothing. */
  lemma {:induction false} PiecesLast(s: string)
    ensures var t := TrimTrailing(s, '/');
      var parts := DropTrailingEmpty(SplitOn(s, '/'));
      (|parts| == 0 <==> t == "")
      && (|parts| > 0 ==> parts[|parts| - 1] == AfterLast(t, '/'))
  {
    if |s| == 0 {
      assert SplitOn(s, '/') == [""];
    } else if s[|s| - 1] == '/' {
      SplitTrailingSeparator(s, '/');
      PiecesLast(s[..|s| - 1]);
    } else {
      SplitLastPiece(s, '/');
    }
  }

  /** What getFileNameByObjectName gives when the key has no piece left after splitting. */
  datatype FileNameError = IndexOutOfBounds

  /**
   * getFileNameByObjectName: null (None) for a blank argument; otherwise the
   * last piece after splitting on '/', cut after its last '.'; a key made only
   * of '/' has no pieces and fails.
   */
  function GetFileNameByObjectName(objectName: Option<string>): (r: Result<Option<string>, FileNameError>)
    ensures IsBlankOpt(objectName) <==> r == Ok(None)
    ensures r.Ok? && r.value.Some? ==> '/' !in r.value.value && '.' !in r.value.value
  {
    if IsBlankOpt(objectName) then Ok(None)
    else
      var split := JavaSplit(objectName.value, '/');
      if |split| == 0 then Err(IndexOutOfBounds)
      else
        var nameAndExt := split[|split| - 1];
        assert nameAndExt == SplitOn(objectName.value, '/')[|split| - 1];
        AfterLastLacks(nameAndExt, '.', '/');
        Ok(Some(AfterLast(nameAndExt, '.')))
  }

  /**
   * For a non-blank key with something left after trimming its trailing '/',
   * the result is cut from the text after the last remaining '/'.
   */
  lemma FileNameOfTrimmed(key: string)
    requires !IsBlank(key) && TrimTrailing(key, '/') != ""
    ensures GetFileNameByObjectName(Some(key)) == Ok(Some(AfterLast(AfterLast(TrimTrailing(key, '/'), '/'), '.')))
  {
    JavaSplitLast(key);
    assert !IsBlankOpt(Some(key));
  }

  /**
   * The result is the extension, not the name: for "dirs/name.ext" it is
   * "ext", and trailing '/' are ignored.
   */
  lemma FileNameIsExtension(dirs: string, name: string, ext: string, slashes: nat)
    requires '/' !in name && '/' !in ext && '.' !in ext
    ensures var key := dirs + "/" + (name + "." + ext) + seq(slashes, _ => '/');
      GetFileNameByObjectName(Some(key)) == Ok(Some(ext))
  {
    var last := name + "." + ext;
    var core := dirs + "/" + last;
    var key := core + seq(slashes, _ => '/');
    assert key[|dirs|] == '/' && !JavaWhitespace('/');
    TrimSlashes(core, slashes);
    FileNameOfTrimmed(key);
    LastPieceIsExtension(dirs, name, ext);
  }

  /** Splitting "dirs/name.ext" at its last '/' and then its last '.' leaves "ext". */
  lemma LastPieceIsExtension(dirs: string, name: string, ext: string)
    requires '/' !in name && '/' !in ext && '.' !in ext
    ensures var core := dirs + "/" + (name + "." + ext);
      AfterLast(core, '/') == name + "." + ext && AfterLast(name + "." + ext, '.') == ext
  {
    var last := name + "." + ext;
    assert '/' !in last by {
      assert forall j :: 0 <= j < |last| ==> last[j] in name || last[j] == '.' || last[j] in ext;
    }
    LastIndexOfSplit(dirs, '/', last);
    LastIndexOfSplit(name, '.', ext);
  }

  /** Trailing '/' added to a key that does not end in '/' are exactly what trimming removes. */
  lemma TrimSlashes(core: string, slashes: nat)
    requires |core| > 0 && core[|core| - 1] != '/'
    ensures TrimTrailing(core + seq(slashes, _ => '/'), '/') == core
  {
    var key := core + seq(slashes, _ => '/');
    assert key[..|core|] == core;
  }

  /** A non-blank key made only of '/' makes the lookup fail. */
  lemma FileNameOfSlashesFails(n: nat)
    requires n > 0
    ensures GetFileNameByObjectName(Some(seq(n, _ => '/'))) == Err(IndexOutOfBounds)
  {
    var key: string := seq(n, _ => '/');
    assert key[0] == '/' && !JavaWhitespace('/');
    JavaSplitLast(key);
    assert TrimTrailing(key, '/') == "";
  }

  /** The principal block of the documents this helper generates: anonymous, as {"AWS": ["*"]}. */
  const AWS_PRINCIPAL: string :=
    "      \"Principal\":{\n"
    + "                \"AWS\": [\n"
    + "                    \"*\"\n"
    + "                ]\n"
    + "            },\n"

  /** The default policy: list, read, write and delete for everyone. */
  function DefaultBucketPolicy(bucketName: string): (policy: string)
    ensures exists block :: policy == PolicyDocument(block, AWS_PRINCIPAL, bucketName)
                            && ParseActionBlock(ACTION_INDENT, block) == Some(DEFAULT_ACTIONS)
    ensures EndsWith(policy, ARN_PREFIX + bucketName + RESOURCE_TAIL)
  {
    var block := ActionBlock(ACTION_INDENT, DEFAULT_ACTIONS);
    DocumentResource(block, AWS_PRINCIPAL, bucketName);
    FixedBlocksReadBack();
    PolicyDocument(block, AWS_PRINCIPAL, bucketName)
  }

  /** The read-only policy: GetObject for everyone. */
  function ReadOnlyBucketPolicy(bucketName: string): (policy: string)
    ensures exists block :: policy == PolicyDocument(block, AWS_PRINCIPAL, bucketName)
                            && ParseActionBlock(ACTION_INDENT, block) == Some(READONLY_ACTIONS)
    ensures EndsWith(policy, ARN_PREFIX + bucketName + RESOURCE_TAIL)
  {
    var block := ActionBlock(ACTION_INDENT, READONLY_ACTIONS);
    DocumentResource(block, AWS_PRINCIPAL, bucketName);
    FixedBlocksReadBack();
    PolicyDocument(block, AWS_PRINCIPAL, bucketName)
  }

  /** A policy granting the caller's actions, in their order, to everyone. */
  method CustomBucketPolicy(bucketName: string, bucketPolicyList: seq<string>) returns (policy: string)
    ensures policy == PolicyDocument(ActionBlock("", bucketPolicyList), AWS_PRINCIPAL, bucketName)
    ensures EndsWith(policy, ARN_PREFIX + bucketName + RESOURCE_TAIL)
  {
    var rule := BuildActionBlock(bucketPolicyList);
    policy := PolicyDocument(rule, AWS_PRINCIPAL, bucketName);
    DocumentResource(rule, AWS_PRINCIPAL, bucketName);
  }
}
