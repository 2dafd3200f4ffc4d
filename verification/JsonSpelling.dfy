/** What the stable printer writes, to the letter
    (mongo-index-ensure-rules.js; JSON.stringify of ECMA-262). */
module JsonSpelling {
  import opened JsText
  import opened Wrappers
  import opened StableJson

  // ---------------------------------------------------------------- strings

  /** The escapes of two characters. */
  function ShortEscape(c: CodeUnit): Option<Str> {
    if c == 0x08 then Some(Ascii("\\b"))
    else if c == 0x09 then Some(Ascii("\\t"))
    else if c == 0x0A then Some(Ascii("\\n"))
    else if c == 0x0C then Some(Ascii("\\f"))
    else if c == 0x0D then Some(Ascii("\\r"))
    else if c == 0x22 then Some(Ascii("\\\""))
    else if c == 0x5C then Some(Ascii("\\\\"))
    else None
  }

  const HEX := Ascii("0123456789abcdef")

  /** A backslash, a u and the four hexadecimal digits of the unit. */
  ghost predicate IsLongEscape(t: Str, c: CodeUnit) {
    exists d0, d1, d2, d3 ::
      && 0 <= d0 < 16 && 0 <= d1 < 16 && 0 <= d2 < 16 && 0 <= d3 < 16
      && c as int == 4096 * d0 + 256 * d1 + 16 * d2 + d3
      && t == Ascii("\\u") + [HEX[d0], HEX[d1], HEX[d2], HEX[d3]]
  }

  /** How a unit outside a surrogate pair is written. */
  ghost predicate Spells(t: Str, c: CodeUnit) {
    if ShortEscape(c).Some? then t == ShortEscape(c).value
    else if c < 0x20 || 0xD800 <= c <= 0xDFFF then IsLongEscape(t, c)
    else t == [c]
  }

  predicate IsPair(c: CodeUnit, d: CodeUnit) {
    0xD800 <= c <= 0xDBFF && 0xDC00 <= d <= 0xDFFF
  }

  lemma DigitExactly(d: CodeUnit)
    requires d < 16
    ensures HexDigit(d) == HEX[d as int]
  {
    var digits := "0123456789abcdef";
    assert HEX[d as int] == digits[d as int] as CodeUnit;
  }

  lemma LongFrom(c: CodeUnit, d0: CodeUnit, d1: CodeUnit, d2: CodeUnit, d3: CodeUnit)
    requires d0 < 16 && d1 < 16 && d2 < 16 && d3 < 16
    requires c as int == 4096 * d0 as int + 256 * d1 as int + 16 * d2 as int + d3 as int
    ensures IsLongEscape([92, 117, HexDigit(d0), HexDigit(d1), HexDigit(d2), HexDigit(d3)], c)
  {
    DigitExactly(d0);
    DigitExactly(d1);
    DigitExactly(d2);
    DigitExactly(d3);
    hide HexDigit;
    assert Ascii("\\u") == [92, 117];
    assert [92, 117, HexDigit(d0), HexDigit(d1), HexDigit(d2), HexDigit(d3)]
        == Ascii("\\u") + [HEX[d0 as int], HEX[d1 as int], HEX[d2 as int], HEX[d3 as int]];
  }

  lemma LongExactly(c: CodeUnit)
    ensures IsLongEscape(UnicodeEscape(c), c)
  {
    hide IsLongEscape, HexDigit;
    HexDigits(c);
    LongFrom(c, c / 4096, c / 256 % 16, c / 16 % 16, c % 16);
  }

  lemma ShortExactly(c: CodeUnit)
    ensures match ShortEscape(c)
            case Some(t) => QuoteUnit(c) == t
            case None => QuoteUnit(c) == if c < 0x20 || 0xD800 <= c <= 0xDFFF then UnicodeEscape(c) else [c]
  {
    hide UnicodeEscape;
  }

  lemma UnitExactly(c: CodeUnit)
    ensures Spells(QuoteUnit(c), c)
  {
    LongExactly(c);
    ShortExactly(c);
    hide IsLongEscape, UnicodeEscape, QuoteUnit, ShortEscape;
  }

  /** A string is written between quotes, pair by pair and unit by unit. */
  lemma QuoteExactly(s: Str)
    ensures exists body :: SpellsAll(body, s) && Quote(s) == Ascii("\"") + body + Ascii("\"")
  {
    BodyExactly(s);
    assert Ascii("\"") == [34];
  }

  ghost predicate SpellsAll(t: Str, s: Str)
    decreases |s|
  {
    if s == [] then t == []
    else if |s| >= 2 && IsPair(s[0], s[1]) then
      |t| >= 2 && t[..2] == s[..2] && SpellsAll(t[2..], s[2..])
    else exists n :: 0 < n <= |t| && Spells(t[..n], s[0]) && SpellsAll(t[n..], s[1..])
  }

  lemma {:induction false} BodyExactly(s: Str)
    ensures SpellsAll(QuoteBody(s), s)
    decreases |s|
  {
    hide QuoteUnit, Spells;
    var t := QuoteBody(s);
    if s == [] {
    } else if |s| >= 2 && IsPair(s[0], s[1]) {
      BodyExactly(s[2..]);
      assert t[2..] == QuoteBody(s[2..]);
    } else {
      BodyExactly(s[1..]);
      UnitExactly(s[0]);
      NotEmpty(s[0]);
      var n := |QuoteUnit(s[0])|;
      assert t[..n] == QuoteUnit(s[0]) && t[n..] == QuoteBody(s[1..]);
    }
  }

  lemma NotEmpty(c: CodeUnit)
    ensures QuoteUnit(c) != []
  {
  }

  // ----------------------------------------------------------------- values

  /** Parts with a comma between each and the next. */
  function Joined(parts: seq<Str>): Str {
    if |parts| == 0 then [] else if |parts| == 1 then parts[0] else parts[0] + Ascii(",") + Joined(parts[1..])
  }

  lemma SimpleExactly(v: Json)
    ensures v.JNull? || v.NonFinite? ==> StableStringify(v) == Ascii("null")
    ensures v.JBool? ==> StableStringify(v) == if v.b then Ascii("true") else Ascii("false")
    ensures v.JNum? ==> StableStringify(v) == v.text
    ensures v.JStr? ==> StableStringify(v) == Quote(v.s)
  {
    assert Ascii("null") == NULL_TEXT && Ascii("true") == TRUE_TEXT && Ascii("false") == FALSE_TEXT;
  }

  function Texts(xs: seq<Json>): (r: seq<Str>)
    ensures |r| == |xs|
  {
    seq(|xs|, i requires 0 <= i < |xs| => StableStringify(xs[i]))
  }

  lemma {:induction false} ItemsExactly(xs: seq<Json>, n: nat)
    requires n <= |xs|
    ensures JoinItems(JArr(xs), n) == Joined(Texts(xs)[n..])
    decreases |xs| - n
  {
    assert Ascii(",") == [44];
    if n < |xs| {
      ItemsExactly(xs, n + 1);
      assert Texts(xs)[n..][1..] == Texts(xs)[n + 1..];
    }
  }

  /** An array is its items in order, between brackets. */
  lemma ArrayExactly(xs: seq<Json>)
    ensures StableStringify(JArr(xs)) == Ascii("[") + Joined(Texts(xs)) + Ascii("]")
  {
    ItemsExactly(xs, 0);
    assert Texts(xs)[0..] == Texts(xs);
    assert Ascii("[") == [91] && Ascii("]") == [93];
  }

  /** The members at these places, key and value. */
  function MemberTexts(ms: seq<Member>, order: seq<nat>): (r: seq<Str>)
    requires forall i :: 0 <= i < |order| ==> order[i] < |ms|
    ensures |r| == |order|
  {
    seq(|order|, i requires 0 <= i < |order| => Quote(ms[order[i]].key) + Ascii(":") + StableStringify(ms[order[i]].value))
  }

  /** Every place once, by key: at the first unit where two keys differ the
      smaller one comes first, and a key before its continuations. */
  ghost predicate InKeyOrder(ms: seq<Member>, order: seq<nat>) {
    && |order| == |ms| && (forall i :: 0 <= i < |order| ==> order[i] < |ms|)
    && forall i, j :: 0 <= i < j < |order| ==> ComesBefore(ms[order[i]].key, ms[order[j]].key)
  }

  lemma {:induction false} InsertGrows(k: Str, ks: seq<Str>)
    ensures |InsertKey(k, ks)| == |ks| + 1
  {
    if ks != [] { InsertGrows(k, ks[1..]); }
  }

  lemma {:induction false} EveryKeyOnce(ms: seq<Member>)
    ensures |SortedKeys(ms)| == |ms|
  {
    if ms != [] {
      EveryKeyOnce(ms[1..]);
      InsertGrows(ms[0].key, SortedKeys(ms[1..]));
    }
  }

  function Places(ms: seq<Member>, ks: seq<Str>): (r: seq<nat>)
    requires forall i :: 0 <= i < |ks| ==> HasKey(ms, ks[i])
    ensures |r| == |ks| && forall i :: 0 <= i < |ks| ==> r[i] < |ms| && ms[r[i]].key == ks[i]
  {
    seq(|ks|, i requires 0 <= i < |ks| => KeyIndex(ms, ks[i]))
  }

  lemma {:induction false} MembersExactly(ms: seq<Member>, ks: seq<Str>)
    requires forall i :: 0 <= i < |ks| ==> HasKey(ms, ks[i])
    ensures JoinMembers(JObj(ms), ks) == Joined(MemberTexts(ms, Places(ms, ks)))
  {
    assert Ascii(",") == [44] && Ascii(":") == [58];
    if ks != [] {
      MembersExactly(ms, ks[1..]);
      assert MemberText(JObj(ms), ks[0]) == MemberTexts(ms, Places(ms, ks))[0];
      assert MemberTexts(ms, Places(ms, ks))[1..] == MemberTexts(ms, Places(ms, ks[1..]));
    }
  }

  lemma OrderExactly(ms: seq<Member>)
    requires DistinctKeys(ms)
    ensures InKeyOrder(ms, Places(ms, SortedKeys(ms)))
  {
    hide ComesBefore, Less, SortedKeys;
    var ks := SortedKeys(ms);
    SortedKeysSorted(ms);
    EveryKeyOnce(ms);
    var order := Places(ms, ks);
    hide Places;
    forall i, j | 0 <= i < j < |order| ensures ComesBefore(ms[order[i]].key, ms[order[j]].key) {
      LessExactly(ks[i], ks[j]);
    }
  }

  /** An object is its members in the order of their keys, between braces. */
  lemma ObjectExactly(ms: seq<Member>)
    requires DistinctKeys(ms)
    ensures exists order :: InKeyOrder(ms, order)
                            && StableStringify(JObj(ms)) == Ascii("{") + Joined(MemberTexts(ms, order)) + Ascii("}")
  {
    OrderExactly(ms);
    MembersExactly(ms, SortedKeys(ms));
    assert Ascii("{") == [123] && Ascii("}") == [125];
    hide InKeyOrder, SortedKeys, Places, MemberTexts, Joined, JoinMembers, Ascii;
  }

  /** What JavaScript takes for false: nothing, null, false, zero, NaN and the
      empty string. */
  lemma TruthyExactly(v: Option<Json>)
    ensures Truthy(v) <==> v !in {None, Some(JNull), Some(JBool(false)), Some(JNum(Ascii("0"))), Some(NonFinite(true)), Some(JStr([]))}
  {
    assert Ascii("0") == [48];
  }
}
