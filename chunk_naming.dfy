// Object keys of the chunked-upload protocol: where chunks are staged, and how
// a listed key is read back as a chunk index.
module ChunkNaming {
  import opened Common

  /** The reserved prefix under which chunks are staged. */
  const CHUNK_UPLOAD_PREFIX: string := ".chunk-uploads/"
  const CHUNK_SUFFIX: string := ".chunk"

  /** Everything one upload session has staged. */
  function SessionPrefix(session: string): string
  {
    CHUNK_UPLOAD_PREFIX + session + "/"
  }

  /** The staging directory of one file within one session. */
  function ChunkDir(session: string, md5: string): string
  {
    CHUNK_UPLOAD_PREFIX + session + "/" + md5 + "/"
  }

  /** The prefix that status queries and session-less cancels use: the digest alone. */
  function DigestPrefix(md5: string): string
  {
    CHUNK_UPLOAD_PREFIX + md5 + "/"
  }

  /** The key of chunk `n`: `.chunk-uploads/{session}/{md5}/{n}.chunk`. */
  function ChunkKey(session: string, md5: string, n: nat): string
  {
    ChunkDir(session, md5) + NatToString(n) + CHUNK_SUFFIX
  }

  /**
   * The index a listed key names: keys ending in ".chunk" have the text after
   * their last '/', with every ".chunk" removed, parsed as a Java int; keys
   * that do not parse are skipped (None).
   */
  function ChunkIndexOf(key: string): Option<int>
  {
    if !EndsWith(key, CHUNK_SUFFIX) then None
    else
      var name := AfterLast(key, '/');
      ParseInt(ReplaceAll(name, CHUNK_SUFFIX, ""))
  }

  lemma StartsWithTransitive(s: string, p: string, q: string)
    requires StartsWith(s, p) && StartsWith(p, q)
    ensures StartsWith(s, q)
  {
    assert s[..|q|] == s[..|p|][..|q|];
  }

  /** Each chunk key lies in its file's directory, which lies in its session. */
  lemma ChunkKeyLocation(session: string, md5: string, n: nat)
    ensures StartsWith(ChunkKey(session, md5, n), ChunkDir(session, md5))
    ensures StartsWith(ChunkDir(session, md5), SessionPrefix(session))
    ensures StartsWith(ChunkKey(session, md5, n), SessionPrefix(session))
    ensures StartsWith(ChunkKey(session, md5, n), CHUNK_UPLOAD_PREFIX)
  {
    var dir := ChunkDir(session, md5);
    var key := ChunkKey(session, md5, n);
    assert key[..|dir|] == dir;
    assert dir == SessionPrefix(session) + md5 + "/";
    assert dir[..|SessionPrefix(session)|] == SessionPrefix(session);
    StartsWithTransitive(key, dir, SessionPrefix(session));
    assert SessionPrefix(session)[..|CHUNK_UPLOAD_PREFIX|] == CHUNK_UPLOAD_PREFIX;
    StartsWithTransitive(key, SessionPrefix(session), CHUNK_UPLOAD_PREFIX);
  }

  /**
   * A key "{dir}{digits}.chunk" reads back as the Java int its digits spell,
   * whatever the directory (leading zeros included).
   */
  lemma ChunkIndexOfDigits(dir: string, digits: string)
    requires |dir| > 0 && dir[|dir| - 1] == '/'
    requires forall i :: 0 <= i < |digits| ==> IsDigit(digits[i])
    ensures ChunkIndexOf(dir + digits + CHUNK_SUFFIX) == ParseInt(digits)
  {
    var key := dir + digits + CHUNK_SUFFIX;
    assert key[|key| - |CHUNK_SUFFIX|..] == CHUNK_SUFFIX;
    assert AfterLast(key, '/') == digits + CHUNK_SUFFIX by {
      ChunkNameAfterDir(dir, digits);
    }
    assert forall i :: 0 <= i < |digits| ==> digits[i] != '.';
    ReplaceAllSkips(digits, CHUNK_SUFFIX, CHUNK_SUFFIX, "");
    assert CHUNK_SUFFIX[..|CHUNK_SUFFIX|] == CHUNK_SUFFIX;
    assert CHUNK_SUFFIX[|CHUNK_SUFFIX|..] == "";
    assert ReplaceAll(CHUNK_SUFFIX, CHUNK_SUFFIX, "") == "";
    assert digits + "" == digits;
  }

  /** The name of a key "{dir}{digits}.chunk" is what follows the directory. */
  lemma ChunkNameAfterDir(dir: string, digits: string)
    requires |dir| > 0 && dir[|dir| - 1] == '/'
    requires forall i :: 0 <= i < |digits| ==> IsDigit(digits[i])
    ensures AfterLast(dir + digits + CHUNK_SUFFIX, '/') == digits + CHUNK_SUFFIX
  {
    var name := digits + CHUNK_SUFFIX;
    assert '/' !in name by {
      forall j | 0 <= j < |name|
        ensures name[j] != '/'
      {
        if j < |digits| {
          assert name[j] == digits[j];
        } else {
          assert name[j] == CHUNK_SUFFIX[j - |digits|];
        }
      }
    }
    var front := dir[..|dir| - 1];
    assert dir + digits + CHUNK_SUFFIX == front + ['/'] + name;
    LastIndexOfSplit(front, '/', name);
  }

  /** Reading a chunk key back gives the index it was written with. */
  lemma ChunkIndexOfChunkKey(session: string, md5: string, n: nat)
    requires n <= INT32_MAX
    ensures ChunkIndexOf(ChunkKey(session, md5, n)) == Some(n)
  {
    var dir := ChunkDir(session, md5);
    assert dir[|dir| - 1] == '/';
    ChunkIndexOfDigits(dir, NatToString(n));
    ParseIntOfNatToString(n);
  }

  /** Different indices of one file never share a key. */
  lemma ChunkKeyInjective(session: string, md5: string, n: nat, n': nat)
    requires n <= INT32_MAX && n' <= INT32_MAX
    requires ChunkKey(session, md5, n) == ChunkKey(session, md5, n')
    ensures n == n'
  {
    ChunkIndexOfChunkKey(session, md5, n);
    ChunkIndexOfChunkKey(session, md5, n');
  }

  /**
   * The digest-only prefix sees a session's chunks only when the session id
   * equals the digest (ids and digests without '/').
   */
  lemma DigestPrefixSeesChunkKey(session: string, md5: string, n: nat, digest: string)
    requires '/' !in session && '/' !in digest
    ensures StartsWith(ChunkKey(session, md5, n), DigestPrefix(digest)) <==> session == digest
  {
    var key := ChunkKey(session, md5, n);
    var p := |CHUNK_UPLOAD_PREFIX|;
    assert forall i :: 0 <= i < |session| ==> key[p + i] == session[i];
    assert key[p + |session|] == '/';
    var dp := DigestPrefix(digest);
    assert forall i :: 0 <= i < |digest| ==> dp[p + i] == digest[i];
    assert dp[p + |digest|] == '/';
    if session == digest {
      ChunkKeyLocation(session, md5, n);
      assert dp == SessionPrefix(session);
    }
  }
}
