/** JavaScript strings: sequences of 16-bit code units, with the few string
    operations the modelled code uses. */
module JsText {

  newtype CodeUnit = c: int | 0 <= c < 0x10000

  type Str = seq<CodeUnit>

  predicate IsAscii(s: string) {
    forall i :: 0 <= i < |s| ==> s[i] as int < 128
  }

  /** The code units of an ASCII literal. */
  function Ascii(s: string): (r: Str)
    requires IsAscii(s)
    ensures |r| == |s| && forall i :: 0 <= i < |s| ==> r[i] == s[i] as CodeUnit
  {
    seq(|s|, i requires 0 <= i < |s| => s[i] as CodeUnit)
  }

  lemma AppendAssoc(a: Str, b: Str, c: Str)
    ensures (a + b) + c == a + (b + c)
  {
  }

  lemma AppendCancel(p: Str, a: Str, b: Str)
    requires p + a == p + b
    ensures a == b
  {
    assert (p + a)[|p|..] == a && (p + b)[|p|..] == b;
  }

  /** WhiteSpace and LineTerminator code points of ECMA-262, the ones `trim` strips. */
  predicate IsWhite(c: CodeUnit) {
    || 0x09 <= c <= 0x0D || c == 0x20 || c == 0xA0 || c == 0x1680
    || 0x2000 <= c <= 0x200A || c == 0x2028 || c == 0x2029 || c == 0x202F
    || c == 0x205F || c == 0x3000 || c == 0xFEFF
  }

  function TrimStart(s: Str): (r: Str)
    ensures |r| <= |s|
  {
    if s != [] && IsWhite(s[0]) then TrimStart(s[1..]) else s
  }

  function TrimEnd(s: Str): (r: Str)
    ensures |r| <= |s|
  {
    if s != [] && IsWhite(s[|s| - 1]) then TrimEnd(s[..|s| - 1]) else s
  }

  function Trim(s: Str): Str {
    TrimEnd(TrimStart(s))
  }

  /** `!s?.trim()`: nothing is left of the text once white space is stripped. */
  predicate IsBlank(s: Str) {
    Trim(s) == []
  }

  /** The code units `trim` strips, one by one. */
  const WHITE_SPACE: set<CodeUnit> := {
    0x09, 0x0A, 0x0B, 0x0C, 0x0D, 0x20, 0xA0, 0x1680,
    0x2000, 0x2001, 0x2002, 0x2003, 0x2004, 0x2005, 0x2006, 0x2007, 0x2008, 0x2009, 0x200A,
    0x2028, 0x2029, 0x202F, 0x205F, 0x3000, 0xFEFF
  }

  lemma WhiteExactly(c: CodeUnit)
    ensures IsWhite(c) <==> c in WHITE_SPACE
  {
  }

  /** Text with something besides white space in it. */
  predicate SaysSomething(t: Str) {
    exists i :: 0 <= i < |t| && t[i] !in WHITE_SPACE
  }

  predicate AllWhite(t: Str) {
    forall i :: 0 <= i < |t| ==> IsWhite(t[i])
  }

  lemma {:induction false} TrimStartExactly(s: Str)
    ensures var r := TrimStart(s);
            && r == s[|s| - |r|..] && AllWhite(s[..|s| - |r|]) && (r != [] ==> !IsWhite(r[0]))
  {
    hide IsWhite;
    if s != [] && IsWhite(s[0]) {
      TrimStartExactly(s[1..]);
      var r := TrimStart(s[1..]);
      assert s[..|s| - |r|] == [s[0]] + s[1..][..|s| - 1 - |r|];
    }
  }

  lemma {:induction false} TrimEndExactly(s: Str)
    ensures var r := TrimEnd(s);
            && r == s[..|r|] && AllWhite(s[|r|..]) && (r != [] ==> !IsWhite(r[|r| - 1]))
  {
    hide IsWhite;
    if s != [] && IsWhite(s[|s| - 1]) {
      var init := s[..|s| - 1];
      TrimEndExactly(init);
      var r := TrimEnd(init);
      assert s[|r|..] == init[|r|..] + [s[|s| - 1]];
    }
  }

  /** Trimming takes white space off both ends and nothing else. */
  lemma TrimExactly(s: Str) returns (before: Str, after: Str)
    ensures s == before + Trim(s) + after && AllWhite(before) && AllWhite(after)
    ensures Trim(s) != [] ==> !IsWhite(Trim(s)[0]) && !IsWhite(Trim(s)[|Trim(s)| - 1])
  {
    TrimStartExactly(s);
    var t := TrimStart(s);
    TrimEndExactly(t);
    var r := TrimEnd(t);
    before, after := s[..|s| - |t|], t[|r|..];
    hide IsWhite, TrimStart, TrimEnd;
    assert s == before + t && t == r + after;
    assert r != [] ==> r[0] == t[0];
  }

  lemma BlankExactly(t: Str)
    ensures IsBlank(t) <==> !SaysSomething(t)
  {
    forall c ensures IsWhite(c) <==> c in WHITE_SPACE { WhiteExactly(c); }
    var before, after := TrimExactly(t);
    hide IsWhite, Trim;
    if Trim(t) == [] {
      assert t == before + after;
    } else {
      assert t[|before|] == Trim(t)[0];
    }
  }

  /** Text without white space is its own trimming. */
  lemma TrimNoWhite(s: Str)
    requires forall i :: 0 <= i < |s| ==> !IsWhite(s[i])
    ensures Trim(s) == s
  {
  }

  /** Lower-case form of one code unit.  Besides A-Z only the Kelvin sign and
      the dotted capital I have a lower-case form that touches ASCII; every
      other letter stays outside ASCII, which no modelled test can tell apart
      from leaving it alone. */
  function LowerUnit(c: CodeUnit): (r: Str)
    ensures r != []
  {
    if 65 <= c <= 90 then [c + 32]
    else if c == 0x212A then [107]
    else if c == 0x130 then [105, 0x307]
    else [c]
  }

  function Lower(s: Str): Str {
    if s == [] then [] else LowerUnit(s[0]) + Lower(s[1..])
  }

  /** Unit-wise order of `Array.prototype.sort` on strings. */
  predicate Less(a: Str, b: Str)
    decreases |a|
  {
    b != [] && (a == [] || a[0] < b[0] || (a[0] == b[0] && Less(a[1..], b[1..])))
  }

  /** The texts agree on their first n units, and there a ends or has the
      smaller unit. */
  predicate ComesBeforeAt(a: Str, b: Str, n: int) {
    0 <= n <= |a| && n < |b| && a[..n] == b[..n] && (n < |a| ==> a[n] < b[n])
  }

  ghost predicate ComesBefore(a: Str, b: Str) {
    exists n :: ComesBeforeAt(a, b, n)
  }

  lemma SameFirst(a: Str, b: Str, n: nat)
    requires a != [] && b != [] && a[0] == b[0]
    ensures ComesBeforeAt(a, b, n + 1) <==> ComesBeforeAt(a[1..], b[1..], n)
    ensures !ComesBeforeAt(a, b, 0)
  {
    if n <= |a| - 1 && n < |b| - 1 {
      assert a[..n + 1] == [a[0]] + a[1..][..n] && b[..n + 1] == [b[0]] + b[1..][..n];
      AppendCancelled([a[0]], a[1..][..n], b[1..][..n]);
    }
  }

  lemma AppendCancelled(p: Str, a: Str, b: Str)
    ensures p + a == p + b <==> a == b
  {
    if p + a == p + b { AppendCancel(p, a, b); }
  }

  lemma {:induction false} LessExactly(a: Str, b: Str)
    ensures Less(a, b) <==> ComesBefore(a, b)
    decreases |a|
  {
    if b != [] && (a == [] || a[0] < b[0]) {
      assert ComesBeforeAt(a, b, 0);
    } else if b != [] && a[0] == b[0] {
      LessExactly(a[1..], b[1..]);
      SameFirst(a, b, 0);
      if n :| ComesBeforeAt(a[1..], b[1..], n) { SameFirst(a, b, n); }
      if n :| ComesBeforeAt(a, b, n) { assert n > 0; SameFirst(a, b, n - 1); }
    } else if b != [] {
      forall n | 0 < n <= |a| && n < |b| ensures a[..n] != b[..n] { assert a[..n][0] != b[..n][0]; }
    }
  }

  lemma {:induction false} LessTrichotomy(a: Str, b: Str)
    ensures Less(a, b) || a == b || Less(b, a)
    decreases |a|
  {
    if a != [] && b != [] && a[0] == b[0] {
      LessTrichotomy(a[1..], b[1..]);
      assert a == [a[0]] + a[1..] && b == [b[0]] + b[1..];
    }
  }

  lemma {:induction false} LessAsymmetric(a: Str, b: Str)
    requires Less(a, b)
    ensures !Less(b, a) && a != b
    decreases |a|
  {
    if a != [] && a[0] == b[0] {
      LessAsymmetric(a[1..], b[1..]);
    }
  }

  lemma {:induction false} LessTransitive(a: Str, b: Str, c: Str)
    requires Less(a, b) && Less(b, c)
    ensures Less(a, c)
    decreases |a|
  {
    if a != [] && a[0] == b[0] == c[0] {
      LessTransitive(a[1..], b[1..], c[1..]);
    }
  }
}
