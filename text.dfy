/** Whitespace trimming, as `String.prototype.trim` does it. */
module Text {

  /**
   * The characters `trim` strips: the ECMAScript white space (tab, vertical
   * tab, form feed, the byte order mark and the space separators) and line
   * terminators.
   */
  predicate IsSpace(ch: char) {
    || ch == '\t' || ch == '\n' || ch == '\U{000B}' || ch == '\U{000C}' || ch == '\r'
    || ch == ' ' || ch == '\U{00A0}' || ch == '\U{1680}'
    || ('\U{2000}' <= ch <= '\U{200A}')
    || ch == '\U{2028}' || ch == '\U{2029}' || ch == '\U{202F}' || ch == '\U{205F}'
    || ch == '\U{3000}' || ch == '\U{FEFF}'
  }

  /** Scanning forward from `i`: the first index whose character is not a space, or `|s|`. */
  function SkipForward(s: string, i: nat): (k: nat)
    requires i <= |s|
    ensures i <= k <= |s|
    ensures k < |s| ==> !IsSpace(s[k])
    decreases |s| - i
  {
    if i < |s| && IsSpace(s[i]) then SkipForward(s, i + 1) else i
  }

  /** Everything `SkipForward` passes over is whitespace. */
  lemma {:induction false} SkipForwardPassesSpace(s: string, i: nat)
    requires i <= |s|
    ensures forall j :: i <= j < SkipForward(s, i) ==> IsSpace(s[j])
    decreases |s| - i
  {
    if i < |s| && IsSpace(s[i]) {
      SkipForwardPassesSpace(s, i + 1);
    }
  }

  /**
   * Scanning backward from `j`, not below `lo`: one past the last index whose
   * character is not a space, or `lo`.
   */
  function SkipBackward(s: string, lo: nat, j: nat): (e: nat)
    requires lo <= j <= |s|
    ensures lo <= e <= j
    ensures lo < e ==> !IsSpace(s[e - 1])
    decreases j
  {
    if lo < j && IsSpace(s[j - 1]) then SkipBackward(s, lo, j - 1) else j
  }

  /** Everything `SkipBackward` passes over is whitespace. */
  lemma {:induction false} SkipBackwardPassesSpace(s: string, lo: nat, j: nat)
    requires lo <= j <= |s|
    ensures forall i :: SkipBackward(s, lo, j) <= i < j ==> IsSpace(s[i])
    decreases j
  {
    if lo < j && IsSpace(s[j - 1]) {
      SkipBackwardPassesSpace(s, lo, j - 1);
    }
  }

  /** `s.trim()`: `s` without its leading and trailing whitespace. */
  function Trim(s: string): (r: string)
    ensures |r| <= |s|
    ensures r == [] || (!IsSpace(r[0]) && !IsSpace(r[|r| - 1]))
  {
    var k := SkipForward(s, 0);
    s[k..SkipBackward(s, k, |s|)]
  }

  /**
   * The trimmed text is the piece of `s` between a whitespace prefix and a
   * whitespace suffix.
   */
  lemma TrimCutsSpace(s: string)
    ensures var k := SkipForward(s, 0); var e := k + |Trim(s)|;
      && e <= |s| && Trim(s) == s[k..e]
      && (forall i :: 0 <= i < k ==> IsSpace(s[i]))
      && (forall i :: e <= i < |s| ==> IsSpace(s[i]))
  {
    var k := SkipForward(s, 0);
    SkipForwardPassesSpace(s, 0);
    SkipBackwardPassesSpace(s, k, |s|);
  }

  /** Trimming leaves nothing exactly when `s` is all whitespace. */
  lemma TrimBlank(s: string)
    ensures Trim(s) == [] <==> forall i :: 0 <= i < |s| ==> IsSpace(s[i])
  {
    TrimCutsSpace(s);
    var k := SkipForward(s, 0);
    if Trim(s) != [] {
      assert s[k] == Trim(s)[0];
    }
  }

  /** Trimming twice is trimming once. */
  lemma TrimIdempotent(s: string)
    ensures Trim(Trim(s)) == Trim(s)
  {
    var r := Trim(s);
    if r != [] {
      assert SkipForward(r, 0) == 0;
      assert SkipBackward(r, 0, |r|) == |r|;
      assert r[0..|r|] == r;
    }
  }
}
