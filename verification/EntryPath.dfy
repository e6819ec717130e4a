/** How an archive entry's path is normalised when the entry is made. */
module EntryPath {
  import opened PathOrder

  const SLASH: bv8 := 0x2F
  const BACKSLASH: bv8 := 0x5C
  const DOT: bv8 := 0x2E

  /** Backslashes become slashes. */
  function ForwardSlashes(p: Bytes): (r: Bytes)
    ensures |r| == |p| && forall i :: 0 <= i < |p| ==> r[i] == if p[i] == BACKSLASH then SLASH else p[i]
    ensures BACKSLASH !in r
  {
    seq(|p|, i requires 0 <= i < |p| => if p[i] == BACKSLASH then SLASH else p[i])
  }

  predicate StartsDotSlash(p: Bytes) { |p| >= 2 && p[0] == DOT && p[1] == SLASH }

  predicate StartsSlash(p: Bytes) { |p| >= 1 && p[0] == SLASH }

  function TrimDotSlashes(p: Bytes): (r: Bytes)
    ensures !StartsDotSlash(r) && |r| <= |p| && r == p[|p| - |r|..]
    ensures BACKSLASH !in p ==> BACKSLASH !in r
    decreases |p|
  {
    if StartsDotSlash(p) then TrimDotSlashes(p[2..]) else p
  }

  function TrimSlashes(p: Bytes): (r: Bytes)
    ensures !StartsSlash(r) && |r| <= |p| && r == p[|p| - |r|..]
    ensures BACKSLASH !in p ==> BACKSLASH !in r
    decreases |p|
  {
    if StartsSlash(p) then TrimSlashes(p[1..]) else p
  }

  function Normalize(raw: Bytes): Bytes {
    TrimSlashes(TrimDotSlashes(ForwardSlashes(raw)))
  }

  /** Paths the normalisation leaves alone: those a git tree contains, unless a name has a
      backslash in it. */
  predicate Plain(p: Bytes) {
    && 0x5C !in p
    && !(|p| >= 2 && p[0] == 0x2E && p[1] == 0x2F)
    && !(|p| >= 1 && p[0] == 0x2F)
  }

  lemma NormalizeKeepsIffPlain(p: Bytes)
    ensures Normalize(p) == p <==> Plain(p)
  {
    var f := ForwardSlashes(p);
    if Plain(p) {
      assert f == p;
    }
    if Normalize(p) == p {
      assert f == p;
      assert TrimDotSlashes(p) == p;
    }
  }

  /** Slashes, at least one, and then "./". */
  predicate SlashesThenDot(p: Bytes)
    decreases |p|
  {
    StartsSlash(p) && (StartsDotSlash(p[1..]) || SlashesThenDot(p[1..]))
  }

  /** Once every leading "./" is gone there are slashes, and another "./" behind them. */
  predicate HidesDotSlash(p: Bytes)
    decreases |p|
  {
    if StartsDotSlash(p) then HidesDotSlash(p[2..]) else SlashesThenDot(p)
  }

  lemma {:induction false} SlashesHide(p: Bytes)
    requires !StartsDotSlash(p)
    ensures StartsDotSlash(TrimSlashes(p)) <==> SlashesThenDot(p)
    decreases |p|
  {
    if StartsSlash(p) && !StartsDotSlash(p[1..]) { SlashesHide(p[1..]); }
    if StartsSlash(p) && StartsDotSlash(p[1..]) { assert TrimSlashes(p) == p[1..]; }
  }

  lemma {:induction false} ResultStartsDotSlash(p: Bytes)
    ensures StartsDotSlash(TrimSlashes(TrimDotSlashes(p))) <==> HidesDotSlash(p)
    decreases |p|
  {
    if StartsDotSlash(p) { ResultStartsDotSlash(p[2..]); } else { SlashesHide(p); }
  }

  /** Normalised paths are free of backslashes and leading slashes. Normalising is idempotent on
      exactly the paths that have no "./" hidden behind slashes; on those others it is not. */
  lemma NormalizeTwiceIff(raw: Bytes)
    ensures BACKSLASH !in Normalize(raw) && !StartsSlash(Normalize(raw))
    ensures Normalize(Normalize(raw)) == Normalize(raw) <==> !HidesDotSlash(ForwardSlashes(raw))
  {
    NormalizeKeepsIffPlain(Normalize(raw));
    ResultStartsDotSlash(ForwardSlashes(raw));
    hide ForwardSlashes, TrimDotSlashes, TrimSlashes, HidesDotSlash;
  }
}
