/** Username rules of packages/shared/src/username.ts. */
module Username {
  import opened JsText

  const MIN_LENGTH := 4
  const MAX_LENGTH := 40
  const HYPHEN: CodeUnit := 45
  const ARCHIVED_PREFIX := Ascii("archived-")

  function Normalize(raw: Str): Str {
    Lower(Trim(raw))
  }

  /** One of `a-z`, `0-9`, `.`, `_`, `-`. */
  predicate IsNameUnit(c: CodeUnit) {
    97 <= c <= 122 || 48 <= c <= 57 || c == 46 || c == 95 || c == HYPHEN
  }

  predicate AllNameUnits(s: Str) {
    forall i :: 0 <= i < |s| ==> IsNameUnit(s[i])
  }

  predicate IsValid(s: Str) {
    MIN_LENGTH <= |s| <= MAX_LENGTH && AllNameUnits(s)
  }

  /** `replace(/[^a-z0-9._-]/g, "-")`. */
  function Sanitize(s: Str): (r: Str)
    ensures |r| == |s| && AllNameUnits(r)
  {
    seq(|s|, i requires 0 <= i < |s| => if IsNameUnit(s[i]) then s[i] else HYPHEN)
  }

  function ArchivedUsername(employeeCode: Str): Str {
    var normalized := Sanitize(Lower(Trim(employeeCode)));
    var candidate := ARCHIVED_PREFIX + normalized;
    if IsValid(candidate) then candidate
    else
      var trimmed := if |candidate| > MAX_LENGTH then candidate[..MAX_LENGTH] else candidate;
      if |trimmed| >= MIN_LENGTH then trimmed
      else
        var room := MAX_LENGTH - |ARCHIVED_PREFIX|;
        ARCHIVED_PREFIX + (if |normalized| > room then normalized[..room] else normalized)
  }

  predicate HasArchivedPrefix(s: Str) {
    ARCHIVED_PREFIX <= s
  }

  /** Whatever the employee code, the derived name is a valid username that
      announces itself as archived. */
  lemma ArchivedUsernameIsValid(employeeCode: Str)
    ensures IsValid(ArchivedUsername(employeeCode))
    ensures HasArchivedPrefix(ArchivedUsername(employeeCode))
  {
    hide Lower, Trim;
    var candidate := ARCHIVED_PREFIX + Sanitize(Lower(Trim(employeeCode)));
    assert AllNameUnits(ARCHIVED_PREFIX);
    assert AllNameUnits(candidate);
    var r := ArchivedUsername(employeeCode);
    assert r == candidate || r == candidate[..MAX_LENGTH];
  }

  lemma {:induction false} LowerKeepsNames(s: Str)
    requires AllNameUnits(s)
    ensures Lower(s) == s
  {
    if s != [] {
      assert AllNameUnits(s[1..]);
      LowerKeepsNames(s[1..]);
    }
  }

  /** Valid usernames are their own normal form. */
  lemma ValidIsNormal(s: Str)
    requires AllNameUnits(s)
    ensures Normalize(s) == s
  {
    TrimNoWhite(s);
    LowerKeepsNames(s);
  }

  /** The unit stands for a small letter, a digit, a dot, an underscore or a
      hyphen. */
  predicate MayBeInName(c: CodeUnit) {
    var u := c as int;
    || 'a' as int <= u <= 'z' as int || '0' as int <= u <= '9' as int
    || u == '.' as int || u == '_' as int || u == '-' as int
  }

  lemma NameUnitsExactly()
    ensures forall c :: IsNameUnit(c) <==> MayBeInName(c)
  {
  }

  /** A username is 4 to 40 of those. */
  lemma ValidExactly(s: Str)
    ensures IsValid(s) <==> 4 <= |s| <= 40 && forall i :: 0 <= i < |s| ==> MayBeInName(s[i])
  {
    NameUnitsExactly();
  }

  /** The derived name is "archived-" and the code, trimmed, in lower case and
      with a hyphen for every other unit, cut after 40 units. */
  lemma ArchivedExactly(employeeCode: Str)
    ensures var code := Lower(Trim(employeeCode));
            var clean := seq(|code|, i requires 0 <= i < |code| => if MayBeInName(code[i]) then code[i] else '-' as CodeUnit);
            var full := Ascii("archived-") + clean;
            ArchivedUsername(employeeCode) == if |full| <= 40 then full else full[..40]
  {
    hide Lower, Trim;
    var code := Lower(Trim(employeeCode));
    NameUnitsExactly();
    assert Sanitize(code) == seq(|code|, i requires 0 <= i < |code| => if MayBeInName(code[i]) then code[i] else '-' as CodeUnit);
    assert AllNameUnits(ARCHIVED_PREFIX + Sanitize(code));
    hide IsNameUnit, MayBeInName;
  }

  /** Unit by unit, letters become small ones, the Kelvin sign k, the dotted
      capital I an i and a combining dot; any other unit stays. */
  lemma LowerExactly(c: CodeUnit, rest: Str)
    ensures Lower([]) == []
    ensures Lower([c] + rest) ==
      (if 'A' as int <= c as int <= 'Z' as int then [(c as int - 'A' as int + 'a' as int) as CodeUnit]
       else if c == 0x212A then ['k' as CodeUnit]
       else if c == 0x130 then ['i' as CodeUnit, 0x307]
       else [c]) + Lower(rest)
  {
    assert ([c] + rest)[1..] == rest;
  }
}
