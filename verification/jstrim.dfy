/**
  The string trimming the to-do list applies to its draft before adding it.

  The component calls `String.prototype.trim` (section 22.1.3.32 of
  ECMA-262), which removes every leading and trailing code unit that is
  WhiteSpace or a LineTerminator in the sense of the language's lexical
  grammar. `IsWhitespace` lists exactly those code points; every one of them
  lies in the Basic Multilingual Plane, so trimming over Dafny's `char`
  agrees with trimming over UTF-16 code units.
 */
module JsTrim {

  /** WhiteSpace (TAB, VT, FF, ZWNBSP and every `Zs` space) or LineTerminator
      (LF, CR, LS, PS). Each of them is a single UTF-16 code unit, and the
      ASCII ones are exactly space, TAB, LF, VT, FF and CR. */
  predicate IsWhitespace(c: char): (b: bool)
    ensures b ==> (c as int) < 0x1_0000
    ensures (c as int) < 0x80 ==> (b <==> c == ' ' || '\t' <= c <= '\r')
  {
    var n := c as int;
    || n == 0x0009 || n == 0x000B || n == 0x000C || n == 0xFEFF
    || n == 0x0020 || n == 0x00A0 || n == 0x1680 || 0x2000 <= n <= 0x200A
    || n == 0x202F || n == 0x205F || n == 0x3000
    || n == 0x000A || n == 0x000D || n == 0x2028 || n == 0x2029
  }

  /** Every character of `s` from `lo` up to (excluding) `hi` is whitespace. */
  predicate BlankBetween(s: string, lo: int, hi: int)
    requires 0 <= lo && hi <= |s|
  {
    forall i :: lo <= i < hi ==> IsWhitespace(s[i])
  }

  /** Every character of `s` is whitespace (vacuously true of ""). */
  predicate Blank(s: string) {
    BlankBetween(s, 0, |s|)
  }

  /** `s` is empty or neither starts nor ends with whitespace. */
  predicate Tight(s: string) {
    s == [] || (!IsWhitespace(s[0]) && !IsWhitespace(s[|s| - 1]))
  }

  /** `r` is the slice `s[lo..hi]` and everything around it is whitespace. */
  predicate PaddedAt(s: string, r: string, lo: int, hi: int) {
    && 0 <= lo <= hi <= |s|
    && r == s[lo..hi]
    && BlankBetween(s, 0, lo)
    && BlankBetween(s, hi, |s|)
  }

  /** The first position at or after `i` that does not hold whitespace, or
      `|s|` when there is none. */
  function SkipLeading(s: string, i: nat): (k: nat)
    requires i <= |s|
    ensures i <= k <= |s|
    ensures BlankBetween(s, i, k)
    ensures k < |s| ==> !IsWhitespace(s[k])
    decreases |s| - i
  {
    if i < |s| && IsWhitespace(s[i]) then SkipLeading(s, i + 1) else i
  }

  /** The end of the last character before `j`, and not before `lo`, that
      is not whitespace, or `lo` when there is none. */
  function SkipTrailing(s: string, lo: nat, j: nat): (k: nat)
    requires lo <= j <= |s|
    ensures lo <= k <= j
    ensures BlankBetween(s, k, j)
    ensures lo < k ==> !IsWhitespace(s[k - 1])
    decreases j
  {
    if lo < j && IsWhitespace(s[j - 1]) then SkipTrailing(s, lo, j - 1) else j
  }

  /** `String.prototype.trim`: the result is a contiguous slice of `s` with
      only whitespace cut off on either side, it is tight, and it is empty
      exactly when `s` is blank. */
  function Trim(s: string): (r: string)
    ensures exists lo, hi :: PaddedAt(s, r, lo, hi)
    ensures Tight(r)
    ensures r == [] <==> Blank(s)
  {
    var lo := SkipLeading(s, 0);
    var hi := SkipTrailing(s, lo, |s|);
    assert PaddedAt(s, s[lo..hi], lo, hi);
    assert lo < hi ==> s[lo..hi][0] == s[lo] && s[lo..hi][hi - lo - 1] == s[hi - 1];
    s[lo..hi]
  }

  /** `SkipLeading` stops at the first character that is not whitespace. */
  lemma {:induction false} SkipLeadingAt(s: string, i: nat, k: nat)
    requires i <= k <= |s| && BlankBetween(s, i, k)
    requires k < |s| ==> !IsWhitespace(s[k])
    ensures SkipLeading(s, i) == k
    decreases k - i
  {
    if i < k {
      assert IsWhitespace(s[i]);
      SkipLeadingAt(s, i + 1, k);
    }
  }

  /** `SkipTrailing` stops after the last character that is not whitespace. */
  lemma {:induction false} SkipTrailingAt(s: string, lo: nat, j: nat, k: nat)
    requires lo <= k <= j <= |s| && BlankBetween(s, k, j)
    requires lo < k ==> !IsWhitespace(s[k - 1])
    ensures SkipTrailing(s, lo, j) == k
    decreases j - k
  {
    if k < j {
      assert IsWhitespace(s[j - 1]);
      SkipTrailingAt(s, lo, j - 1, k);
    }
  }

  /** The converse of `Trim`'s contract: whenever `s` is a tight string padded
      with whitespace on both sides, trimming recovers exactly that string.
      Together with the contract this characterises `Trim` completely. */
  lemma TrimOfPadded(a: string, m: string, b: string)
    requires Blank(a) && Blank(b) && Tight(m)
    ensures Trim(a + m + b) == m
  {
    var s := a + m + b;
    var lo, hi := |a|, |a| + |m|;
    assert s[lo..hi] == m;
    if m == [] {
      assert BlankBetween(s, 0, |s|) by {
        forall i | 0 <= i < |s|
          ensures IsWhitespace(s[i])
        {
          if i < |a| { assert s[i] == a[i]; } else { assert s[i] == b[i - |a|]; }
        }
      }
      SkipLeadingAt(s, 0, |s|);
      SkipTrailingAt(s, |s|, |s|, |s|);
    } else {
      assert BlankBetween(s, 0, lo) by {
        forall i | 0 <= i < lo
          ensures IsWhitespace(s[i])
        {
          assert s[i] == a[i];
        }
      }
      assert s[lo] == m[0];
      SkipLeadingAt(s, 0, lo);
      assert BlankBetween(s, hi, |s|) by {
        forall i | hi <= i < |s|
          ensures IsWhitespace(s[i])
        {
          assert s[i] == b[i - hi];
        }
      }
      assert s[hi - 1] == m[|m| - 1];
      SkipTrailingAt(s, lo, |s|, hi);
    }
  }

  /** A tight string is its own trim. */
  lemma TrimOfTight(m: string)
    requires Tight(m)
    ensures Trim(m) == m
  {
    assert [] + m + [] == m;
    TrimOfPadded([], m, []);
  }

  /** Trimming twice is trimming once. */
  lemma TrimIdempotent(s: string)
    ensures Trim(Trim(s)) == Trim(s)
  {
    TrimOfTight(Trim(s));
  }

  /** A padded draft loses its padding. */
  lemma TrimPaddedExample()
    ensures Trim("  New Task  ") == "New Task"
  {
    var pad, task := "  ", "New Task";
    assert Blank(pad) && Tight(task);
    assert "  New Task  " == pad + task + pad;
    TrimOfPadded(pad, task, pad);
  }

  /** A draft of spaces trims to nothing. */
  lemma TrimBlankExample()
    ensures Trim("   ") == ""
  {
    assert Blank("   ");
  }
}
