/** The key-ordered JSON printer of scripts/database/mongo-index-ensure-rules.js
    and the equality test built on it. */
module StableJson {
  import opened JsText
  import opened Wrappers

  datatype Member = Member(key: Str, value: Json)

  /** A JavaScript value as the index specifications hold it.  Members keep
      their insertion order.  A finite number is its canonical decimal text;
      NaN and the infinities are `NonFinite`. */
  datatype Json =
    | JNull
    | JBool(b: bool)
    | JNum(text: Str)
    | NonFinite(isNaN: bool)
    | JStr(s: Str)
    | JArr(items: seq<Json>)
    | JObj(members: seq<Member>)

  predicate IsNumUnit(c: CodeUnit) {
    48 <= c <= 57 || c in {43, 45, 46, 101}
  }

  /** Texts that a finite number can print as: they open with a digit or a
      minus sign and use only the characters of the JSON number grammar. */
  predicate IsNumText(t: Str) {
    t != [] && (48 <= t[0] <= 57 || t[0] == 45) && forall i :: 0 <= i < |t| ==> IsNumUnit(t[i])
  }

  predicate DistinctKeys(ms: seq<Member>) {
    forall i, j :: 0 <= i < j < |ms| ==> ms[i].key != ms[j].key
  }

  predicate WellFormed(v: Json) {
    match v
    case JNum(t) => IsNumText(t)
    case JArr(xs) => forall i :: 0 <= i < |xs| ==> WellFormed(xs[i])
    case JObj(ms) => DistinctKeys(ms) && forall i :: 0 <= i < |ms| ==> WellFormed(ms[i].value)
    case _ => true
  }

  // ---------------------------------------------------------------- strings

  function HexDigit(d: CodeUnit): CodeUnit
    requires d < 16
  {
    if d < 10 then 48 + d else 87 + d
  }

  predicate IsSurrogate(c: CodeUnit) { 0xD800 <= c < 0xE000 }

  predicate StartsPair(s: Str) {
    |s| >= 2 && 0xD800 <= s[0] < 0xDC00 && 0xDC00 <= s[1] < 0xE000
  }

  function UnicodeEscape(c: CodeUnit): Str {
    [92, 117, HexDigit(c / 4096), HexDigit(c / 256 % 16), HexDigit(c / 16 % 16), HexDigit(c % 16)]
  }

  function QuoteUnit(c: CodeUnit): Str {
    if c == 8 then [92, 98]
    else if c == 9 then [92, 116]
    else if c == 10 then [92, 110]
    else if c == 12 then [92, 102]
    else if c == 13 then [92, 114]
    else if c == 34 || c == 92 then [92, c]
    else if c < 32 || IsSurrogate(c) then UnicodeEscape(c)
    else [c]
  }

  /** Body of `JSON.stringify` on a string: paired surrogates stay literal. */
  function QuoteBody(s: Str): Str {
    if s == [] then []
    else if StartsPair(s) then [s[0], s[1]] + QuoteBody(s[2..])
    else QuoteUnit(s[0]) + QuoteBody(s[1..])
  }

  function Quote(s: Str): Str {
    [34] + QuoteBody(s) + [34]
  }

  function HexValue(c: CodeUnit): (r: Option<CodeUnit>)
    ensures r.Some? ==> r.value < 16
  {
    if 48 <= c <= 57 then Some(c - 48) else if 97 <= c <= 102 then Some(c - 87) else None
  }

  /** What one escape stands for (section 7 of RFC 8259), with its length. */
  function ReadEscape(t: Str): (r: Option<(CodeUnit, nat)>)
    requires t != []
    ensures r.Some? ==> 2 <= r.value.1 <= |t|
  {
    if |t| < 2 then None
    else if t[1] == 98 then Some((8, 2))
    else if t[1] == 116 then Some((9, 2))
    else if t[1] == 110 then Some((10, 2))
    else if t[1] == 102 then Some((12, 2))
    else if t[1] == 114 then Some((13, 2))
    else if t[1] in {34, 47, 92} then Some((t[1], 2))
    else if t[1] != 117 || |t| < 6 then None
    else
      match (HexValue(t[2]), HexValue(t[3]), HexValue(t[4]), HexValue(t[5]))
      case (Some(a), Some(b), Some(c), Some(d)) =>
        Some((4096 * a + 256 * b + 16 * c + d, 6))
      case _ => None
  }

  /** Reads a string body up to its closing quote; the rest is returned too. */
  function ReadBody(t: Str): Option<(Str, Str)>
    decreases |t|
  {
    if t == [] || t[0] < 32 then None
    else if t[0] == 34 then Some(([], t[1..]))
    else if t[0] == 92 then
      match ReadEscape(t)
      case None => None
      case Some(e) => Prepend(e.0, ReadBody(t[e.1..]))
    else Prepend(t[0], ReadBody(t[1..]))
  }

  function Prepend(c: CodeUnit, r: Option<(Str, Str)>): Option<(Str, Str)> {
    match r
    case None => None
    case Some(p) => Some(([c] + p.0, p.1))
  }

  lemma HexDigits(c: CodeUnit)
    ensures c / 4096 < 16
    ensures 4096 * (c / 4096) + 256 * (c / 256 % 16) + 16 * (c / 16 % 16) + c % 16 == c
  {
    var x, y, z := c / 16, c / 256, c / 4096;
    assert y == x / 16 && z == y / 16;
  }

  lemma HexDigitReadsBack(d: CodeUnit)
    requires d < 16
    ensures HexValue(HexDigit(d)) == Some(d)
  {
  }

  lemma HexReadsBack(c: CodeUnit, t: Str)
    ensures ReadEscape(UnicodeEscape(c) + t) == Some((c, 6))
  {
    HexDigits(c);
    var d0, d1, d2, d3 := c / 4096, c / 256 % 16, c / 16 % 16, c % 16;
    var u := [92, 117, HexDigit(d0), HexDigit(d1), HexDigit(d2), HexDigit(d3)] + t;
    assert u[0] == 92 && u[1] == 117;
    assert u[2] == HexDigit(d0) && u[3] == HexDigit(d1) && u[4] == HexDigit(d2) && u[5] == HexDigit(d3);
    HexDigitReadsBack(d0);
    HexDigitReadsBack(d1);
    HexDigitReadsBack(d2);
    HexDigitReadsBack(d3);
  }

  lemma ReadQuotedUnit(c: CodeUnit, t: Str)
    ensures ReadBody(QuoteUnit(c) + t) == Prepend(c, ReadBody(t))
  {
    var q := QuoteUnit(c);
    var u := q + t;
    assert u[|q|..] == t;
    if |q| == 6 {
      HexReadsBack(c, t);
    } else if |q| == 2 {
      assert u[0] == q[0] && u[1] == q[1];
      assert ReadEscape(u) == Some((c, 2));
    } else {
      assert u[0] == c;
    }
  }

  lemma ReadLiteral(c: CodeUnit, t: Str)
    requires c >= 32 && c != 34 && c != 92
    ensures ReadBody([c] + t) == Prepend(c, ReadBody(t))
  {
    assert ([c] + t)[1..] == t;
  }

  lemma PairReadsBack(s: Str, t: Str, rest: Str)
    requires StartsPair(s) && ReadBody(t) == Some((s[2..], rest))
    ensures ReadBody([s[0], s[1]] + t) == Some((s, rest))
  {
    assert [s[0], s[1]] + t == [s[0]] + ([s[1]] + t);
    ReadLiteral(s[1], t);
    ReadLiteral(s[0], [s[1]] + t);
    hide ReadBody;
    assert s == [s[0]] + ([s[1]] + s[2..]);
  }

  lemma UnitReadsBack(s: Str, t: Str, rest: Str)
    requires s != [] && ReadBody(t) == Some((s[1..], rest))
    ensures ReadBody(QuoteUnit(s[0]) + t) == Some((s, rest))
  {
    hide ReadBody, QuoteUnit;
    ReadQuotedUnit(s[0], t);
    assert s == [s[0]] + s[1..];
  }

  lemma EmptyReadsBack(rest: Str)
    ensures ReadBody(QuoteBody([]) + ([34] + rest)) == Some(([], rest))
  {
    assert QuoteBody([]) + ([34] + rest) == [34] + rest;
    assert ([34] + rest)[1..] == rest;
  }

  /** The escapes lose nothing: a reader of section 7 of RFC 8259 gets every
      string back, whatever text follows its closing quote. */
  lemma {:induction false} QuoteReadsBack(s: Str, rest: Str)
    ensures ReadBody(QuoteBody(s) + ([34] + rest)) == Some((s, rest))
    decreases |s|
  {
    hide ReadBody, QuoteUnit;
    var close := [34] + rest;
    if s == [] {
      EmptyReadsBack(rest);
    } else if StartsPair(s) {
      QuoteReadsBack(s[2..], rest);
      AppendAssoc([s[0], s[1]], QuoteBody(s[2..]), close);
      PairReadsBack(s, QuoteBody(s[2..]) + close, rest);
    } else {
      QuoteReadsBack(s[1..], rest);
      AppendAssoc(QuoteUnit(s[0]), QuoteBody(s[1..]), close);
      UnitReadsBack(s, QuoteBody(s[1..]) + close, rest);
    }
  }

  lemma QuoteOpens(a: Str, r: Str)
    ensures Quote(a) + r == [34] + (QuoteBody(a) + ([34] + r))
  {
    var body := QuoteBody(a);
    assert ([34] + body + [34]) + r == [34] + (body + ([34] + r));
  }

  lemma QuotePrefix(a: Str, b: Str, r1: Str, r2: Str)
    requires Quote(a) + r1 == Quote(b) + r2
    ensures a == b && r1 == r2
  {
    QuoteOpens(a, r1);
    QuoteOpens(b, r2);
    AppendCancel([34], QuoteBody(a) + ([34] + r1), QuoteBody(b) + ([34] + r2));
    QuoteReadsBack(a, r1);
    QuoteReadsBack(b, r2);
  }

  // ------------------------------------------------------------------- keys

  predicate HasKey(ms: seq<Member>, k: Str) {
    exists i :: 0 <= i < |ms| && ms[i].key == k
  }

  function KeyIndex(ms: seq<Member>, k: Str): (i: nat)
    requires HasKey(ms, k)
    ensures i < |ms| && ms[i].key == k
  {
    if ms[0].key == k then 0 else
      assert HasKey(ms[1..], k) by {
        var i :| 0 <= i < |ms| && ms[i].key == k;
        assert ms[1..][i - 1].key == k;
      }
      1 + KeyIndex(ms[1..], k)
  }

  predicate StrictlySorted(ks: seq<Str>) {
    forall i, j :: 0 <= i < j < |ks| ==> Less(ks[i], ks[j])
  }

  function InsertKey(k: Str, ks: seq<Str>): (r: seq<Str>)
    ensures forall x :: x in r <==> x == k || x in ks
  {
    if ks == [] then [k]
    else if Less(ks[0], k) then [ks[0]] + InsertKey(k, ks[1..])
    else [k] + ks
  }

  /** `Object.keys(value).sort()`. */
  function SortedKeys(ms: seq<Member>): (r: seq<Str>)
    ensures forall k :: k in r <==> HasKey(ms, k)
  {
    if ms == [] then [] else
      assert forall k :: HasKey(ms, k) <==> k == ms[0].key || HasKey(ms[1..], k) by {
        forall k ensures HasKey(ms, k) <==> k == ms[0].key || HasKey(ms[1..], k) {
          if HasKey(ms, k) && k != ms[0].key {
            var i :| 0 <= i < |ms| && ms[i].key == k;
            assert ms[1..][i - 1].key == k;
          }
          if HasKey(ms[1..], k) {
            var i :| 0 <= i < |ms| - 1 && ms[1..][i].key == k;
            assert ms[i + 1].key == k;
          }
        }
      }
      InsertKey(ms[0].key, SortedKeys(ms[1..]))
  }

  lemma {:induction false} InsertKeySorted(k: Str, ks: seq<Str>)
    requires StrictlySorted(ks) && k !in ks
    ensures StrictlySorted(InsertKey(k, ks))
  {
    if ks != [] {
      LessTrichotomy(ks[0], k);
      if Less(ks[0], k) {
        InsertKeySorted(k, ks[1..]);
        var r := InsertKey(k, ks[1..]);
        forall j | 0 <= j < |r| ensures Less(ks[0], r[j]) { assert r[j] in r; }
      } else {
        forall j | 0 <= j < |ks| ensures Less(k, ks[j]) {
          if j > 0 { LessTransitive(k, ks[0], ks[j]); }
        }
      }
    }
  }

  lemma {:induction false} SortedKeysSorted(ms: seq<Member>)
    requires DistinctKeys(ms)
    ensures StrictlySorted(SortedKeys(ms))
  {
    if ms != [] {
      SortedKeysSorted(ms[1..]);
      assert !HasKey(ms[1..], ms[0].key);
      InsertKeySorted(ms[0].key, SortedKeys(ms[1..]));
    }
  }

  /** The first element of a strictly sorted list is before all others. */
  lemma FirstIsLeast(a: seq<Str>, k: Str)
    requires StrictlySorted(a) && a != [] && k in a
    ensures k == a[0] || (Less(a[0], k) && k in a[1..])
    ensures !Less(k, a[0])
    ensures a[0] !in a[1..]
  {
    var i :| 0 <= i < |a| && a[i] == k;
    if i > 0 {
      assert a[1..][i - 1] == k;
      LessAsymmetric(a[0], k);
    } else {
      assert !Less(k, k) by { if Less(k, k) { LessAsymmetric(k, k); } }
    }
    forall j | 0 <= j < |a[1..]| ensures a[1..][j] != a[0] {
      assert Less(a[0], a[j + 1]);
      LessAsymmetric(a[0], a[j + 1]);
    }
  }

  /** A strictly sorted list is determined by its elements. */
  lemma {:induction false} SortedUnique(a: seq<Str>, b: seq<Str>)
    requires StrictlySorted(a) && StrictlySorted(b)
    requires forall k :: k in a <==> k in b
    ensures a == b
  {
    hide Less;
    if a != [] { assert a[0] in b; }
    if b != [] { assert b[0] in a; }
    if a != [] && b != [] {
      FirstIsLeast(a, b[0]);
      FirstIsLeast(b, a[0]);
      forall k ensures k in a[1..] <==> k in b[1..] {
        if k in a { FirstIsLeast(a, k); FirstIsLeast(b, k); }
      }
      SortedUnique(a[1..], b[1..]);
      assert a == [a[0]] + a[1..] && b == [b[0]] + b[1..];
    }
  }

  // ---------------------------------------------------------------- printer

  const NULL_TEXT: Str := [110, 117, 108, 108]
  const TRUE_TEXT: Str := [116, 114, 117, 101]
  const FALSE_TEXT: Str := [102, 97, 108, 115, 101]

  /** Prints a value with every object's keys in sorted order. */
  function StableStringify(v: Json): Str
    decreases v, 1, 0
  {
    match v
    case JNull => NULL_TEXT
    case NonFinite(_) => NULL_TEXT
    case JBool(b) => if b then TRUE_TEXT else FALSE_TEXT
    case JNum(t) => t
    case JStr(s) => Quote(s)
    case JArr(xs) => [91] + JoinItems(v, 0) + [93]
    case JObj(ms) => [123] + JoinMembers(v, SortedKeys(ms)) + [125]
  }

  /** The printed items from index n on, joined by commas. */
  function JoinItems(v: Json, n: nat): Str
    requires v.JArr? && n <= |v.items|
    decreases v, 0, |v.items| - n
  {
    if n == |v.items| then []
    else if n + 1 == |v.items| then StableStringify(v.items[n])
    else StableStringify(v.items[n]) + [44] + JoinItems(v, n + 1)
  }

  function ValueAt(v: Json, k: Str): (x: Json)
    requires v.JObj? && HasKey(v.members, k)
    ensures x < v
    ensures WellFormed(v) ==> WellFormed(x)
  {
    v.members[KeyIndex(v.members, k)].value
  }

  function MemberText(v: Json, k: Str): Str
    requires v.JObj? && HasKey(v.members, k)
    decreases v, 0, 0
  {
    Quote(k) + [58] + StableStringify(ValueAt(v, k))
  }

  function JoinMembers(v: Json, ks: seq<Str>): Str
    requires v.JObj? && forall k :: k in ks ==> HasKey(v.members, k)
    decreases v, 0, |ks| + 1
  {
    if ks == [] then []
    else if |ks| == 1 then MemberText(v, ks[0])
    else MemberText(v, ks[0]) + [44] + JoinMembers(v, ks[1..])
  }

  // --------------------------------------------------- structural equality

  /** Equality up to the order of object keys; a non-finite number counts as
      null, which is how JSON writes it. */
  ghost predicate Same(a: Json, b: Json)
    decreases a
  {
    match a
    case JNull => b.JNull? || b.NonFinite?
    case NonFinite(_) => b.JNull? || b.NonFinite?
    case JArr(xs) => b.JArr? && |xs| == |b.items| && forall i :: 0 <= i < |xs| ==> Same(xs[i], b.items[i])
    case JObj(ms) =>
      && b.JObj?
      && (forall k :: HasKey(ms, k) <==> HasKey(b.members, k))
      && forall i, j | 0 <= i < |ms| && 0 <= j < |b.members| ::
           ms[i].key == b.members[j].key ==> Same(ms[i].value, b.members[j].value)
    case _ => a == b
  }

  /** Text that may follow a value inside an array or object, or its end. */
  predicate Delimited(r: Str) {
    r == [] || r[0] in {44, 93, 125}
  }

  lemma FirstUnit(v: Json)
    requires WellFormed(v)
    ensures StableStringify(v) != []
    ensures var c := StableStringify(v)[0];
            match v
            case JNull => c == 110
            case NonFinite(_) => c == 110
            case JBool(b) => c == if b then 116 else 102
            case JNum(_) => 48 <= c <= 57 || c == 45
            case JStr(_) => c == 34
            case JArr(_) => c == 91
            case JObj(_) => c == 123
  {
  }

  /** Length of the longest run of number characters a text opens with. */
  function NumRun(t: Str): nat {
    if t == [] || !IsNumUnit(t[0]) then 0 else 1 + NumRun(t[1..])
  }

  lemma {:induction false} NumRunStops(a: Str, r: Str)
    requires Delimited(r) && forall i :: 0 <= i < |a| ==> IsNumUnit(a[i])
    ensures NumRun(a + r) == |a|
  {
    if a == [] {
      assert a + r == r;
    } else {
      NumRunStops(a[1..], r);
      assert (a + r)[1..] == a[1..] + r;
    }
  }

  lemma NumPrefix(a: Str, b: Str, r1: Str, r2: Str)
    requires IsNumText(a) && IsNumText(b) && Delimited(r1) && Delimited(r2)
    requires a + r1 == b + r2
    ensures a == b && r1 == r2
  {
    NumRunStops(a, r1);
    NumRunStops(b, r2);
    assert (a + r1)[..|a|] == a && (b + r2)[..|b|] == b;
    AppendCancel(a, r1, r2);
  }

  /** What follows the item at index n once `]` and r are appended. */
  function ItemsRest(v: Json, n: nat, r: Str): Str
    requires v.JArr? && n < |v.items|
  {
    if n + 1 == |v.items| then [93] + r else [44] + (JoinItems(v, n + 1) + ([93] + r))
  }

  lemma ItemsStep(v: Json, n: nat, r: Str)
    requires v.JArr? && n < |v.items|
    ensures JoinItems(v, n) + ([93] + r) == StableStringify(v.items[n]) + ItemsRest(v, n, r)
  {
    if n + 1 < |v.items| {
      AppendAssoc(StableStringify(v.items[n]), [44], JoinItems(v, n + 1));
      AppendAssoc(StableStringify(v.items[n]), [44] + JoinItems(v, n + 1), [93] + r);
      AppendAssoc([44], JoinItems(v, n + 1), [93] + r);
    }
  }

  lemma ItemsClose(v: Json, n: nat, r: Str)
    requires v.JArr? && WellFormed(v) && n <= |v.items|
    ensures var t := JoinItems(v, n) + ([93] + r);
            if n == |v.items| then t == [93] + r else t[0] != 93
  {
    if n < |v.items| { FirstUnit(v.items[n]); ItemsStep(v, n, r); }
  }

  /** What follows the value of the first key once `}` and r are appended. */
  function MembersRest(v: Json, ks: seq<Str>, r: Str): Str
    requires v.JObj? && ks != [] && forall k :: k in ks ==> HasKey(v.members, k)
  {
    if |ks| == 1 then [125] + r else [44] + (JoinMembers(v, ks[1..]) + ([125] + r))
  }

  lemma MembersStep(v: Json, ks: seq<Str>, r: Str)
    requires v.JObj? && ks != [] && forall k :: k in ks ==> HasKey(v.members, k)
    ensures JoinMembers(v, ks) + ([125] + r)
         == Quote(ks[0]) + ([58] + (StableStringify(ValueAt(v, ks[0])) + MembersRest(v, ks, r)))
  {
    var m, x := MemberText(v, ks[0]), StableStringify(ValueAt(v, ks[0]));
    var rest := MembersRest(v, ks, r);
    assert JoinMembers(v, ks) + ([125] + r) == m + rest by {
      if |ks| > 1 {
        AppendAssoc(m, [44], JoinMembers(v, ks[1..]));
        AppendAssoc(m, [44] + JoinMembers(v, ks[1..]), [125] + r);
        AppendAssoc([44], JoinMembers(v, ks[1..]), [125] + r);
      }
    }
    AppendAssoc(Quote(ks[0]), [58], x);
    AppendAssoc(Quote(ks[0]), [58] + x, rest);
    AppendAssoc([58], x, rest);
  }

  lemma MembersClose(v: Json, ks: seq<Str>, r: Str)
    requires v.JObj? && forall k :: k in ks ==> HasKey(v.members, k)
    ensures var t := JoinMembers(v, ks) + ([125] + r);
            if ks == [] then t == [125] + r else t[0] != 125
  {
    if ks != [] { MembersStep(v, ks, r); }
  }

  /** Printed values are self-delimiting: equal texts, followed by anything a
      value may be followed by, come from equal values and equal remainders. */
  lemma {:induction false} PrintPrefix(a: Json, b: Json, r1: Str, r2: Str)
    requires WellFormed(a) && WellFormed(b) && Delimited(r1) && Delimited(r2)
    requires StableStringify(a) + r1 == StableStringify(b) + r2
    ensures Same(a, b) && r1 == r2
    decreases a, 1, 0
  {
    FirstUnit(a);
    FirstUnit(b);
    assert (StableStringify(a) + r1)[0] == StableStringify(a)[0];
    assert (StableStringify(b) + r2)[0] == StableStringify(b)[0];
    match a {
      case JNum(x) => NumPrefix(x, b.text, r1, r2);
      case JStr(x) => QuotePrefix(x, b.s, r1, r2);
      case JArr(_) =>
        Bracket([91], JoinItems(a, 0), [93], r1);
        Bracket([91], JoinItems(b, 0), [93], r2);
        AppendCancel([91], JoinItems(a, 0) + ([93] + r1), JoinItems(b, 0) + ([93] + r2));
        ItemsPrefix(a, b, 0, r1, r2);
      case JObj(ms) =>
        var ks, ls := SortedKeys(ms), SortedKeys(b.members);
        Bracket([123], JoinMembers(a, ks), [125], r1);
        Bracket([123], JoinMembers(b, ls), [125], r2);
        AppendCancel([123], JoinMembers(a, ks) + ([125] + r1), JoinMembers(b, ls) + ([125] + r2));
        MembersPrefix(a, ks, b, ls, r1, r2);
        SameMembers(a, b);
      case _ => AppendCancel(StableStringify(a), r1, r2);
    }
  }

  lemma Bracket(open: Str, body: Str, close: Str, r: Str)
    ensures (open + body + close) + r == open + (body + (close + r))
  {
    AppendAssoc(open + body, close, r);
    AppendAssoc(open, body, close + r);
  }

  lemma {:induction false} ItemsPrefix(a: Json, b: Json, n: nat, r1: Str, r2: Str)
    requires a.JArr? && b.JArr? && WellFormed(a) && WellFormed(b)
    requires n <= |a.items| && n <= |b.items|
    requires JoinItems(a, n) + ([93] + r1) == JoinItems(b, n) + ([93] + r2)
    ensures |a.items| == |b.items| && r1 == r2
    ensures forall i :: n <= i < |a.items| ==> Same(a.items[i], b.items[i])
    decreases a, 0, |a.items| - n
  {
    ItemsClose(a, n, r1);
    ItemsClose(b, n, r2);
    if n == |a.items| {
      AppendCancel([93], r1, r2);
    } else {
      ItemsStep(a, n, r1);
      ItemsStep(b, n, r2);
      PrintPrefix(a.items[n], b.items[n], ItemsRest(a, n, r1), ItemsRest(b, n, r2));
      assert ItemsRest(a, n, r1)[0] == ItemsRest(b, n, r2)[0];
      if n + 1 < |a.items| {
        AppendCancel([44], JoinItems(a, n + 1) + ([93] + r1), JoinItems(b, n + 1) + ([93] + r2));
        ItemsPrefix(a, b, n + 1, r1, r2);
      } else {
        AppendCancel([93], r1, r2);
      }
    }
  }

  lemma {:induction false} MembersPrefix(a: Json, ks: seq<Str>, b: Json, ls: seq<Str>, r1: Str, r2: Str)
    requires a.JObj? && (forall k :: k in ks ==> HasKey(a.members, k))
    requires b.JObj? && (forall k :: k in ls ==> HasKey(b.members, k))
    requires WellFormed(a) && WellFormed(b)
    requires JoinMembers(a, ks) + ([125] + r1) == JoinMembers(b, ls) + ([125] + r2)
    ensures ks == ls && r1 == r2
    ensures forall k :: k in ks ==> Same(ValueAt(a, k), ValueAt(b, k))
    decreases a, 0, |ks|
  {
    MembersClose(a, ks, r1);
    MembersClose(b, ls, r2);
    if ks == [] {
      AppendCancel([125], r1, r2);
    } else {
      var k, l := ks[0], ls[0];
      MembersStep(a, ks, r1);
      MembersStep(b, ls, r2);
      var s1, s2 := MembersRest(a, ks, r1), MembersRest(b, ls, r2);
      var x, y := StableStringify(ValueAt(a, k)), StableStringify(ValueAt(b, l));
      QuotePrefix(k, l, [58] + (x + s1), [58] + (y + s2));
      AppendCancel([58], x + s1, y + s2);
      PrintPrefix(ValueAt(a, k), ValueAt(b, k), s1, s2);
      assert s1[0] == s2[0];
      if |ks| > 1 {
        AppendCancel([44], JoinMembers(a, ks[1..]) + ([125] + r1), JoinMembers(b, ls[1..]) + ([125] + r2));
        MembersPrefix(a, ks[1..], b, ls[1..], r1, r2);
        assert ks == [k] + ks[1..] && ls == [l] + ls[1..];
      } else {
        assert ks == [k] && ls == [l];
        AppendCancel([125], r1, r2);
      }
    }
  }

  /** Under distinct keys, looking a key up finds its only member. */
  lemma ValueAtUnique(v: Json, i: nat)
    requires v.JObj? && DistinctKeys(v.members) && i < |v.members|
    ensures HasKey(v.members, v.members[i].key) && ValueAt(v, v.members[i].key) == v.members[i].value
  {
    assert HasKey(v.members, v.members[i].key);
    var j := KeyIndex(v.members, v.members[i].key);
    assert i == j;
  }

  lemma SameMembers(a: Json, b: Json)
    requires a.JObj? && b.JObj? && WellFormed(a) && WellFormed(b)
    requires forall k :: HasKey(a.members, k) <==> HasKey(b.members, k)
    requires forall k :: HasKey(a.members, k) ==> Same(ValueAt(a, k), ValueAt(b, k))
    ensures Same(a, b)
  {
    forall i, j | 0 <= i < |a.members| && 0 <= j < |b.members| && a.members[i].key == b.members[j].key
      ensures Same(a.members[i].value, b.members[j].value)
    {
      ValueAtUnique(a, i);
      ValueAtUnique(b, j);
    }
  }

  lemma {:induction false} SamePrintsAlike(a: Json, b: Json)
    requires WellFormed(a) && WellFormed(b) && Same(a, b)
    ensures StableStringify(a) == StableStringify(b)
    decreases a, 1, 0
  {
    match a {
      case JArr(xs) => SameItemsPrintAlike(a, b, 0);
      case JObj(ms) =>
        SortedKeysSorted(ms);
        SortedKeysSorted(b.members);
        SortedUnique(SortedKeys(ms), SortedKeys(b.members));
        SameMembersPrintAlike(a, b, SortedKeys(ms));
      case _ =>
    }
  }

  lemma {:induction false} SameItemsPrintAlike(a: Json, b: Json, n: nat)
    requires a.JArr? && b.JArr? && WellFormed(a) && WellFormed(b) && Same(a, b) && n <= |a.items|
    ensures JoinItems(a, n) == JoinItems(b, n)
    decreases a, 0, |a.items| - n
  {
    if n < |a.items| {
      SamePrintsAlike(a.items[n], b.items[n]);
      SameItemsPrintAlike(a, b, n + 1);
    }
  }

  lemma {:induction false} SameMembersPrintAlike(a: Json, b: Json, ks: seq<Str>)
    requires a.JObj? && b.JObj? && WellFormed(a) && WellFormed(b) && Same(a, b)
    requires forall k :: k in ks ==> HasKey(a.members, k)
    ensures JoinMembers(a, ks) == JoinMembers(b, ks)
    decreases a, 0, |ks|
  {
    if ks != [] {
      var k := ks[0];
      assert HasKey(a.members, k) && HasKey(b.members, k);
      assert Same(ValueAt(a, k), ValueAt(b, k));
      SamePrintsAlike(ValueAt(a, k), ValueAt(b, k));
      SameMembersPrintAlike(a, b, ks[1..]);
    }
  }

  /** The printed texts are equal exactly when the values are equal up to the
      order of object keys (non-finite numbers reading as null). */
  lemma StableStringifyDecidesSame(a: Json, b: Json)
    requires WellFormed(a) && WellFormed(b)
    ensures StableStringify(a) == StableStringify(b) <==> Same(a, b)
  {
    if StableStringify(a) == StableStringify(b) {
      assert StableStringify(a) + [] == StableStringify(b) + [];
      PrintPrefix(a, b, [], []);
    }
    if Same(a, b) {
      SamePrintsAlike(a, b);
    }
  }

  /** Outside JSON the test merges values: NaN prints like null. */
  lemma NonFinitePrintsAsNull()
    ensures StableStringify(NonFinite(true)) == StableStringify(JNull)
    ensures NonFinite(true) != JNull && Same(NonFinite(true), JNull)
  {
  }

  // --------------------------------------------------------- equality tests

  /** JavaScript truthiness of an optional value. */
  predicate Truthy(v: Option<Json>) {
    match v
    case None => false
    case Some(j) =>
      match j
      case JNull => false
      case JBool(b) => b
      case JNum(t) => t != [48]
      case NonFinite(isNaN) => !isNaN
      case JStr(s) => s != []
      case _ => true
  }

  predicate PartialFiltersEqual(actual: Option<Json>, expected: Option<Json>) {
    Truthy(actual) && Truthy(expected) && StableStringify(actual.value) == StableStringify(expected.value)
  }

  /** `partialFiltersEqual` decides structural equality of two filter objects,
      and refuses a missing one. */
  lemma PartialFiltersEqualDecidesSame(actual: Option<Json>, expected: Json)
    requires expected.JObj? && WellFormed(expected)
    requires actual.Some? ==> WellFormed(actual.value)
    ensures PartialFiltersEqual(actual, Some(expected)) <==> actual.Some? && Same(actual.value, expected)
  {
    if actual.Some? {
      StableStringifyDecidesSame(actual.value, expected);
    }
  }
}
