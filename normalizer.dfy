/** `normalize_tag`: trim, lower-case, then delete every character outside
    `[a-z0-9]`. Pure and total. */
module TagNormalizer {
  import opened Ascii

  /** Python's `str.isspace`, the set `str.strip()` removes, as code points. */
  predicate IsSpace(c: char) {
    var n := c as int;
    n == 0x20 || 0x09 <= n <= 0x0D || 0x1C <= n <= 0x1F || n == 0x85 || n == 0xA0
    || n == 0x1680 || 0x2000 <= n <= 0x200A || n == 0x2028 || n == 0x2029
    || n == 0x202F || n == 0x205F || n == 0x3000
  }

  /** The characters the pattern `[^a-z0-9]+` does not delete. */
  predicate IsTagChar(c: char) { 'a' <= c <= 'z' || '0' <= c <= '9' }

  /** A canonical tag name: only `a`..`z` and `0`..`9`. */
  predicate IsNormalized(s: string) {
    forall i :: 0 <= i < |s| ==> IsTagChar(s[i])
  }

  predicate AllSpace(s: string) {
    forall i :: 0 <= i < |s| ==> IsSpace(s[i])
  }

  /** The left end of `str.strip()`: from `i`, skip whitespace. */
  function StripStart(s: string, i: nat): (n: nat)
    requires i <= |s|
    ensures i <= n <= |s|
    decreases |s| - i
  {
    if i < |s| && IsSpace(s[i]) then StripStart(s, i + 1) else i
  }

  /** The right end of `str.strip()`: from `j` down, but not below `lo`,
      skip whitespace. */
  function StripEnd(s: string, lo: nat, j: nat): (n: nat)
    requires lo <= j <= |s|
    ensures lo <= n <= j
    decreases j
  {
    if lo < j && IsSpace(s[j - 1]) then StripEnd(s, lo, j - 1) else j
  }

  /** The left scan stops at the first character that is not whitespace
      (or at the end), and everything it skips is whitespace. */
  lemma {:induction false} StripStartSkipsSpace(s: string, i: nat)
    requires i <= |s|
    ensures forall k :: i <= k < StripStart(s, i) ==> IsSpace(s[k])
    ensures StripStart(s, i) < |s| ==> !IsSpace(s[StripStart(s, i)])
    decreases |s| - i
  {
    if i < |s| && IsSpace(s[i]) {
      StripStartSkipsSpace(s, i + 1);
    }
  }

  /** The right scan stops just past the last character that is not
      whitespace (or at `lo`), and everything it skips is whitespace. */
  lemma {:induction false} StripEndSkipsSpace(s: string, lo: nat, j: nat)
    requires lo <= j <= |s|
    ensures forall k :: StripEnd(s, lo, j) <= k < j ==> IsSpace(s[k])
    ensures lo < StripEnd(s, lo, j) ==> !IsSpace(s[StripEnd(s, lo, j) - 1])
    decreases j
  {
    if lo < j && IsSpace(s[j - 1]) {
      StripEndSkipsSpace(s, lo, j - 1);
    }
  }

  /** `str.strip()`: the slice between the two scans. What it keeps and
      removes is stated by `StripSplits` and `StripOf`; the function itself
      promises only the length bound, so that every proof mentioning
      `normalize_tag` does not carry the whitespace facts along. */
  function Strip(s: string): (r: string)
    ensures |r| <= |s|
  {
    var a := StripStart(s, 0);
    s[a..StripEnd(s, a, |s|)]
  }

  /** What `strip()` removes is whitespace on either side of its result,
      and the result neither starts nor ends with whitespace. */
  lemma StripSplits(s: string)
    ensures Strip(s) != [] ==> !IsSpace(Strip(s)[0]) && !IsSpace(Strip(s)[|Strip(s)| - 1])
    ensures StripStart(s, 0) + |Strip(s)| <= |s|
    ensures s == s[..StripStart(s, 0)] + Strip(s) + s[StripStart(s, 0) + |Strip(s)|..]
    ensures AllSpace(s[..StripStart(s, 0)]) && AllSpace(s[StripStart(s, 0) + |Strip(s)|..])
  {
    var a := StripStart(s, 0);
    var b := StripEnd(s, a, |s|);
    StripStartSkipsSpace(s, 0);
    StripEndSkipsSpace(s, a, |s|);
    var r := s[a..b];
    assert Strip(s) == r;
    if r != [] {
      assert r[0] == s[a];
      assert r[|r| - 1] == s[b - 1];
    }
    assert s == s[..a] + r + s[b..];
    assert AllSpace(s[..a]);
    assert AllSpace(s[b..]);
  }

  /** `strip()` of a text padded with whitespace on both sides gives back
      the text, as long as the text itself neither starts nor ends with
      whitespace. */
  lemma StripOf(before: string, core: string, after: string)
    requires AllSpace(before) && AllSpace(after)
    requires core != [] ==> !IsSpace(core[0]) && !IsSpace(core[|core| - 1])
    ensures Strip(before + core + after) == core
  {
    var s := before + core + after;
    var a := StripStart(s, 0);
    var b := StripEnd(s, a, |s|);
    StripStartSkipsSpace(s, 0);
    StripEndSkipsSpace(s, a, |s|);
    var m := |before| + |core|;
    if core == [] {
      assert AllSpace(s) by {
        forall k | 0 <= k < |s| ensures IsSpace(s[k]) {
          if k < |before| { assert s[k] == before[k]; } else { assert s[k] == after[k - |before|]; }
        }
      }
      assert a == |s|;
    } else {
      assert s[|before|] == core[0];
      assert s[m - 1] == core[|core| - 1];
      forall k | 0 <= k < |before| ensures IsSpace(s[k]) {
        assert s[k] == before[k];
      }
      forall k | m <= k < |s| ensures IsSpace(s[k]) {
        assert s[k] == after[k - m];
      }
      assert a == |before|;
      assert b == m;
      assert s[a..b] == core;
    }
  }

  /** `re.sub(r'[^a-z0-9]+', '', s)`: keep the tag characters, in order. */
  function KeepTagChars(s: string): (r: string)
    ensures IsNormalized(r)
    ensures |r| <= |s|
  {
    if s == [] then []
    else (if IsTagChar(s[0]) then [s[0]] else []) + KeepTagChars(s[1..])
  }

  /** `normalize_tag` (app.py). Its result is always a canonical tag name. */
  function Normalize(s: string): (r: string)
    ensures IsNormalized(r)
    ensures |r| <= |s|
  {
    KeepTagChars(Lower(Strip(s)))
  }

  lemma {:induction false} KeepTagCharsAppend(a: string, b: string)
    ensures KeepTagChars(a + b) == KeepTagChars(a) + KeepTagChars(b)
  {
    if a != [] {
      assert (a + b)[1..] == a[1..] + b;
      KeepTagCharsAppend(a[1..], b);
    } else {
      assert a + b == b;
    }
  }

  /** Every character outside `[a-z0-9]` is deleted outright, not replaced. */
  lemma {:induction false} KeepTagCharsDropsOthers(s: string)
    requires forall i :: 0 <= i < |s| ==> !IsTagChar(s[i])
    ensures KeepTagChars(s) == []
  {
    if s != [] {
      KeepTagCharsDropsOthers(s[1..]);
    }
  }

  /** Whitespace is never a tag character, whatever its case. */
  lemma {:induction false} SpacesVanish(s: string)
    requires AllSpace(s)
    ensures KeepTagChars(Lower(s)) == []
  {
    if s != [] {
      assert Lower(s)[1..] == Lower(s[1..]);
      SpacesVanish(s[1..]);
    }
  }

  /** Whitespace around a string is deleted by lower-case-then-filter. */
  lemma FilterIgnoresSpace(before: string, s: string, after: string)
    requires AllSpace(before) && AllSpace(after)
    ensures KeepTagChars(Lower(before + s + after)) == KeepTagChars(Lower(s))
  {
    LowerAppend(before + s, after);
    LowerAppend(before, s);
    KeepTagCharsAppend(Lower(before) + Lower(s), Lower(after));
    KeepTagCharsAppend(Lower(before), Lower(s));
    SpacesVanish(before);
    SpacesVanish(after);
  }

  /** Stripping never changes the result: `normalize_tag` is just
      lower-case-then-filter. */
  lemma NormalizeSkipsStrip(s: string)
    ensures Normalize(s) == KeepTagChars(Lower(s))
  {
    var a := StripStart(s, 0);
    var b := StripEnd(s, a, |s|);
    StripStartSkipsSpace(s, 0);
    StripEndSkipsSpace(s, a, |s|);
    assert s == s[..a] + s[a..b] + s[b..];
    assert AllSpace(s[..a]);
    assert AllSpace(s[b..]);
    FilterIgnoresSpace(s[..a], s[a..b], s[b..]);
  }

  /** Leading and trailing whitespace in the input does not change the result. */
  lemma NormalizeIgnoresSurroundingSpace(before: string, s: string, after: string)
    requires AllSpace(before) && AllSpace(after)
    ensures Normalize(before + s + after) == Normalize(s)
  {
    NormalizeSkipsStrip(before + s + after);
    NormalizeSkipsStrip(s);
    FilterIgnoresSpace(before, s, after);
  }

  lemma {:induction false} KeepTagCharsKeepsNormalized(s: string)
    requires IsNormalized(s)
    ensures KeepTagChars(s) == s
  {
    if s != [] {
      KeepTagCharsKeepsNormalized(s[1..]);
    }
  }

  /** A canonical tag name normalizes to itself. */
  lemma NormalizeFixesNormalized(s: string)
    requires IsNormalized(s)
    ensures Normalize(s) == s
  {
    NormalizeSkipsStrip(s);
    assert Lower(s) == s;
    KeepTagCharsKeepsNormalized(s);
  }

  /** `normalize_tag` is idempotent. */
  lemma NormalizeIdempotent(s: string)
    ensures Normalize(Normalize(s)) == Normalize(s)
  {
    NormalizeFixesNormalized(Normalize(s));
  }

  /** The fixed points of `normalize_tag` are exactly the canonical names. */
  lemma NormalizeFixpoints(s: string)
    ensures Normalize(s) == s <==> IsNormalized(s)
  {
    if IsNormalized(s) {
      NormalizeFixesNormalized(s);
    }
  }
}
