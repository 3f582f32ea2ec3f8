// Listing one level of a bucket's "directories": the request parameters and
// the filter that keeps only the direct children of the prefix.
module FileListing {
  import opened Common

  /** The prefix actually listed: none for a blank one, otherwise ending in '/'. */
  function EffectivePrefix(prefix: Option<string>): (r: Option<string>)
    ensures r.None? <==> IsBlankOpt(prefix)
    ensures r.Some? ==> EndsWith(r.value, "/") && StartsWith(r.value, prefix.value)
    ensures r.Some? && EndsWith(prefix.value, "/") ==> r.value == prefix.value
    ensures r.Some? && !EndsWith(prefix.value, "/") ==> |r.value| == |prefix.value| + 1
  {
    if IsBlankOpt(prefix) then None
    else if EndsWith(prefix.value, "/") then prefix
    else
      var p := prefix.value + "/";
      assert p[..|prefix.value|] == prefix.value;
      Some(p)
  }

  /** How many keys the listing request asks for: the requested size, at most 100. */
  function MaxKeys(size: int): (m: int)
    ensures m <= 100 && m <= size
    ensures size <= 100 ==> m == size
    ensures size > 100 ==> m == 100
  {
    if size > 100 then 100 else size
  }

  /** Cutting the prefix off a listed name fails when the name is shorter than the prefix. */
  predicate TooShort(prefix: Option<string>, name: string)
  {
    prefix.Some? && name != prefix.value && |name| < |prefix.value|
  }

  /** A listed name is shown when it is not the prefix itself and is a folder or sits directly under the prefix. */
  predicate Kept(prefix: Option<string>, name: string)
    requires !TooShort(prefix, name)
  {
    var relative := if prefix.Some? then name[|prefix.value|..] else name;
    !(prefix.Some? && name == prefix.value) && (EndsWith(name, "/") || '/' !in relative)
  }

  /** The names the listing keeps, in listing order; None when cutting a prefix fails. */
  function Children(prefix: Option<string>, listing: seq<string>): Option<seq<string>>
  {
    if |listing| == 0 then Some([])
    else
      var n := |listing| - 1;
      match Children(prefix, listing[..n])
      case None => None
      case Some(prev) =>
        var name := listing[n];
        if prefix.Some? && name == prefix.value then Some(prev)
        else if TooShort(prefix, name) then None
        else if Kept(prefix, name) then Some(prev + [name])
        else Some(prev)
  }

  /** The filter fails exactly when some listed name other than the prefix is shorter than it. */
  lemma {:induction false} ChildrenFailIffTooShort(prefix: Option<string>, listing: seq<string>)
    ensures Children(prefix, listing).None? <==> exists j :: 0 <= j < |listing| && TooShort(prefix, listing[j])
  {
    if |listing| > 0 {
      var n := |listing| - 1;
      ChildrenFailIffTooShort(prefix, listing[..n]);
      if exists j :: 0 <= j < n && TooShort(prefix, listing[..n][j]) {
        var j :| 0 <= j < n && TooShort(prefix, listing[..n][j]);
        assert listing[j] == listing[..n][j];
      }
      if exists j :: 0 <= j < |listing| && TooShort(prefix, listing[j]) {
        var j :| 0 <= j < |listing| && TooShort(prefix, listing[j]);
        if j < n {
          assert listing[..n][j] == listing[j];
        }
      }
    }
  }

  /** What the filter keeps: exactly the listed names that are direct children or folders. */
  lemma {:induction false} ChildrenMembers(prefix: Option<string>, listing: seq<string>)
    requires Children(prefix, listing).Some?
    ensures forall j :: 0 <= j < |listing| ==> !TooShort(prefix, listing[j])
    ensures forall x :: x in Children(prefix, listing).value <==> x in listing && Kept(prefix, x)
  {
    ChildrenFailIffTooShort(prefix, listing);
    if |listing| > 0 {
      var n := |listing| - 1;
      var init, name := listing[..n], listing[n];
      ChildrenMembers(prefix, init);
      var prev := Children(prefix, init).value;
      assert !TooShort(prefix, name);
      assert listing == init + [name];
      forall x
        ensures x in Children(prefix, listing).value <==> x in listing && Kept(prefix, x)
      {
        assert x in listing <==> x in init || x == name;
        ChildrenMembersStep(prefix, prev, name, x);
      }
    }
  }

  /** The last listed name joins the kept names exactly when it is kept. */
  lemma ChildrenMembersStep(prefix: Option<string>, prev: seq<string>, name: string, x: string)
    requires !TooShort(prefix, name)
    ensures var next := if prefix.Some? && name == prefix.value then prev
                        else if Kept(prefix, name) then prev + [name] else prev;
      x in next <==> x in prev || (x == name && Kept(prefix, name))
  {
  }

  /** A store listing under the prefix (every name starts with it) never makes the filter fail. */
  lemma ChildrenOfPrefixListing(prefix: Option<string>, listing: seq<string>)
    requires prefix.Some? ==> forall j :: 0 <= j < |listing| ==> StartsWith(listing[j], prefix.value)
    ensures Children(prefix, listing).Some?
  {
    ChildrenFailIffTooShort(prefix, listing);
  }

  /**
   * The filtering loop over the store's non-recursive listing of
   * `effectivePrefix`; None stands for the failure reported as "9999".
   */
  method FilterListing(effectivePrefix: Option<string>, listing: seq<string>) returns (files: Option<seq<string>>)
    ensures files == Children(effectivePrefix, listing)
  {
    var kept: seq<string> := [];
    var j := 0;
    while j < |listing|
      invariant 0 <= j <= |listing|
      invariant Children(effectivePrefix, listing[..j]) == Some(kept)
    {
      var objectName := listing[j];
      assert listing[..j + 1][..j] == listing[..j];
      if effectivePrefix.Some? && effectivePrefix.value == objectName {
        j := j + 1;
        continue;
      }
      var isFolder := EndsWith(objectName, "/");
      if effectivePrefix.Some? && |objectName| < |effectivePrefix.value| {
        assert listing[..j + 1][j] == objectName;
        ChildrenFailIffTooShort(effectivePrefix, listing[..j + 1]);
        PrefixFailureSticks(effectivePrefix, listing, j + 1);
        return None;
      }
      var relativePath := if effectivePrefix.Some? then objectName[|effectivePrefix.value|..] else objectName;
      if !isFolder && '/' in relativePath {
        j := j + 1;
        continue;
      }
      kept := kept + [objectName];
      j := j + 1;
    }
    assert listing[..j] == listing;
    files := Some(kept);
  }

  /** Once the filter has failed on a prefix of the listing it fails on the whole listing. */
  lemma {:induction false} PrefixFailureSticks(prefix: Option<string>, listing: seq<string>, k: nat)
    requires k <= |listing| && Children(prefix, listing[..k]).None?
    ensures Children(prefix, listing).None?
  {
    if k < |listing| {
      var n := |listing| - 1;
      assert listing[..n][..k] == listing[..k];
      PrefixFailureSticks(prefix, listing[..n], k);
    } else {
      assert listing[..k] == listing;
    }
  }
}
