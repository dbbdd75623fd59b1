/** The Python string primitives the scraper relies on: `str.strip()`,
    `str.join`, `str.startswith`, the `in` substring test and the
    lower-casing of header values. */
module Text {

  /** Python's `str.isspace()`: the characters `str.strip()` removes. */
  predicate IsSpace(c: char) {
    var n := c as int;
    n == 0x20 || 0x09 <= n <= 0x0D || 0x1C <= n <= 0x1F || n == 0x85 || n == 0xA0
    || n == 0x1680 || 0x2000 <= n <= 0x200A || n == 0x2028 || n == 0x2029
    || n == 0x202F || n == 0x205F || n == 0x3000
  }

  /** Neither end of `s` is whitespace (the empty string qualifies). */
  predicate IsStripped(s: string) {
    s == [] || (!IsSpace(s[0]) && !IsSpace(s[|s| - 1]))
  }

  /** The first position at or after `i` that is not whitespace, or `|s|`. */
  function SpaceEnd(s: string, i: nat): (r: nat)
    requires i <= |s|
    ensures i <= r <= |s|
    ensures r < |s| ==> !IsSpace(s[r])
    decreases |s| - i
  {
    if i < |s| && IsSpace(s[i]) then SpaceEnd(s, i + 1) else i
  }

  /** `SpaceEnd` skips whitespace only. */
  lemma {:induction false} SpaceEndSkipsSpace(s: string, i: nat)
    requires i <= |s|
    ensures forall j :: i <= j < SpaceEnd(s, i) ==> IsSpace(s[j])
    decreases |s| - i
  {
    if i < |s| && IsSpace(s[i]) {
      SpaceEndSkipsSpace(s, i + 1);
    }
  }

  /** Going back from `j`, but not below `lo`: the position just after the
      last character that is not whitespace, or `lo`. */
  function SpaceStart(s: string, lo: nat, j: nat): (r: nat)
    requires lo <= j <= |s|
    ensures lo <= r <= j
    ensures r > lo ==> !IsSpace(s[r - 1])
    decreases j
  {
    if j > lo && IsSpace(s[j - 1]) then SpaceStart(s, lo, j - 1) else j
  }

  /** `SpaceStart` skips whitespace only. */
  lemma {:induction false} SpaceStartSkipsSpace(s: string, lo: nat, j: nat)
    requires lo <= j <= |s|
    ensures forall k :: SpaceStart(s, lo, j) <= k < j ==> IsSpace(s[k])
    decreases j
  {
    if j > lo && IsSpace(s[j - 1]) {
      SpaceStartSkipsSpace(s, lo, j - 1);
    }
  }

  /** Where the stripped text of `s` starts. */
  function StripLo(s: string): (r: nat)
    ensures r <= |s|
    ensures r < |s| ==> !IsSpace(s[r])
  {
    SpaceEnd(s, 0)
  }

  /** Where the stripped text of `s` ends. */
  function StripHi(s: string): (r: nat)
    ensures StripLo(s) <= r <= |s|
    ensures r > StripLo(s) ==> !IsSpace(s[r - 1])
  {
    SpaceStart(s, StripLo(s), |s|)
  }

  /** `r` occurs in `s` starting at position `lo`. */
  predicate InfixAt(s: string, r: string, lo: int) {
    0 <= lo && lo + |r| <= |s| && s[lo..lo + |r|] == r
  }

  /** Every character of `s` outside positions `lo..hi` is whitespace. */
  predicate SpaceOutside(s: string, lo: int, hi: int) {
    forall i :: 0 <= i < |s| && !(lo <= i < hi) ==> IsSpace(s[i])
  }

  /** Python's `s.strip()`: leading, then trailing whitespace removed (what
      is removed, and what is left, is `StripIsInfix`). */
  function Strip(s: string): (r: string)
    ensures IsStripped(r)
    ensures |r| <= |s|
  {
    s[StripLo(s)..StripHi(s)]
  }

  /** Everything `Strip` cuts off is whitespace. */
  lemma StripCutsSpace(s: string)
    ensures SpaceOutside(s, StripLo(s), StripHi(s))
  {
    SpaceEndSkipsSpace(s, 0);
    SpaceStartSkipsSpace(s, StripLo(s), |s|);
  }

  /** `Strip(s)` is an infix of `s` and everything cut off is whitespace. */
  lemma StripIsInfix(s: string)
    ensures exists lo :: InfixAt(s, Strip(s), lo) && SpaceOutside(s, lo, lo + |Strip(s)|)
  {
    StripCutsSpace(s);
    assert InfixAt(s, Strip(s), StripLo(s));
  }

  /** Every character of `s` is whitespace. */
  predicate AllSpace(s: string) {
    forall i :: 0 <= i < |s| ==> IsSpace(s[i])
  }

  /** Stripping leaves nothing exactly when there is nothing but
      whitespace. */
  lemma StripEmptyIffAllSpace(s: string)
    ensures Strip(s) == [] <==> AllSpace(s)
  {
    StripCutsSpace(s);
    assert StripLo(s) < |s| ==> !IsSpace(s[StripLo(s)]);
  }

  /** A string without surrounding whitespace is its own strip, so
      stripping twice is stripping once. */
  lemma StripIdempotent(s: string)
    ensures IsStripped(s) ==> Strip(s) == s
    ensures Strip(Strip(s)) == Strip(s)
  {
  }

  /** Python's `sep.join(parts)`. */
  function Join(parts: seq<string>, sep: string): (r: string)
    ensures parts == [] ==> r == []
    ensures |parts| == 1 ==> r == parts[0]
    decreases |parts|
  {
    if parts == [] then []
    else if |parts| == 1 then parts[0]
    else parts[0] + sep + Join(parts[1..], sep)
  }

  /** Every piece is non-empty and has no surrounding whitespace. */
  predicate StrippedPieces(parts: seq<string>) {
    forall k :: 0 <= k < |parts| ==> parts[k] != [] && IsStripped(parts[k])
  }

  /** Joining non-empty, already stripped pieces gives a string that starts
      with the first piece's first character and ends with the last piece's
      last character, so it is itself stripped, and it is empty exactly when
      there are no pieces. */
  lemma {:induction false} JoinStripped(parts: seq<string>, sep: string)
    requires StrippedPieces(parts)
    ensures IsStripped(Join(parts, sep))
    ensures Join(parts, sep) == [] <==> parts == []
    ensures parts != [] ==> Join(parts, sep)[0] == parts[0][0]
    ensures parts != [] ==> Join(parts, sep)[|Join(parts, sep)| - 1] == parts[|parts| - 1][|parts[|parts| - 1]| - 1]
    decreases |parts|
  {
    if |parts| > 1 {
      JoinStripped(parts[1..], sep);
      var rest := Join(parts[1..], sep);
      assert Join(parts, sep) == parts[0] + sep + rest;
    }
  }

  /** Joining two non-empty lists of pieces is joining each, with one more
      separator between them. */
  lemma {:induction false} JoinAppend(p: seq<string>, q: seq<string>, sep: string)
    requires p != [] && q != []
    ensures Join(p + q, sep) == Join(p, sep) + sep + Join(q, sep)
    decreases |p|
  {
    if |p| == 1 {
      assert (p + q)[1..] == q;
    } else {
      JoinAppend(p[1..], q, sep);
      assert (p + q)[1..] == p[1..] + q;
    }
  }

  /** Python's `s.startswith(p)`. */
  predicate StartsWith(s: string, p: string)
    ensures StartsWith(s, p) <==> InfixAt(s, p, 0)
  {
    |p| <= |s| && s[..|p|] == p
  }

  /** Python's `p in s` for strings: `p` occurs as a contiguous infix. */
  predicate Contains(s: string, p: string)
    ensures Contains(s, p) ==> |p| <= |s|
    ensures p == [] ==> Contains(s, p)
    decreases |s|
  {
    StartsWith(s, p) || (s != [] && Contains(s[1..], p))
  }

  /** The substring test finds exactly the positions where `p` occurs. */
  lemma {:induction false} ContainsIffOccurs(s: string, p: string)
    ensures Contains(s, p) <==> exists i :: InfixAt(s, p, i)
    decreases |s|
  {
    if StartsWith(s, p) {
      assert InfixAt(s, p, 0);
    } else if s == [] {
    } else {
      ContainsIffOccurs(s[1..], p);
      if exists i :: InfixAt(s, p, i) {
        var i :| InfixAt(s, p, i);
        assert i != 0;
        assert InfixAt(s[1..], p, i - 1);
      }
      if Contains(s[1..], p) {
        var j :| InfixAt(s[1..], p, j);
        assert s[j + 1..j + 1 + |p|] == s[1..][j..j + |p|];
        assert InfixAt(s, p, j + 1);
      }
    }
  }

  predicate IsAsciiUpper(c: char) {
    'A' <= c <= 'Z'
  }

  /** Lower-cases one character (ASCII letters only, see README). */
  function LowerChar(c: char): (r: char)
    ensures !IsAsciiUpper(r)
    ensures !IsAsciiUpper(c) ==> r == c
  {
    if IsAsciiUpper(c) then (c as int + 32) as char else c
  }

  /** `s.lower()` on header values: every ASCII capital becomes its small
      letter, every other character is kept. */
  function ToLower(s: string): (r: string)
    ensures |r| == |s|
    ensures forall i :: 0 <= i < |r| ==> !IsAsciiUpper(r[i])
    ensures forall i :: 0 <= i < |r| ==> (r[i] == s[i] || (IsAsciiUpper(s[i]) && r[i] as int == s[i] as int + 32))
  {
    seq(|s|, i requires 0 <= i < |s| => LowerChar(s[i]))
  }

  /** Lower-casing twice is lower-casing once. */
  lemma ToLowerIdempotent(s: string)
    ensures ToLower(ToLower(s)) == ToLower(s)
  {
  }
}
