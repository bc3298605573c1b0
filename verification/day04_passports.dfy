/**
 * Day 4 (Passport Processing): passports are blocks of `key:value` tokens
 * separated by spaces or newlines; part 1 counts those holding the seven
 * required fields, part 2 those whose fields also pass the value rules.
 */
module Passports {
  import opened Wrappers
  import opened JsStrings

  /**
   * The object `parsePassport` builds. A token without ':' stores the key
   * with the value `undefined`, modelled as `None`.
   */
  type Passport = map<string, Option<string>>

  // ---------------------------------------------------------------------
  // Parsing
  // ---------------------------------------------------------------------

  /** `block.replace(/\n/g, " ").split(" ")`. */
  function Tokens(block: string): seq<string> {
    Split(ReplaceAll(block, '\n', ' '), " ")
  }

  /** `k` of `const [k, v] = token.split(":")`. */
  function KeyOf(token: string): string {
    Split(token, ":")[0]
  }

  /** `v` of `const [k, v] = token.split(":")`: `undefined` when there is no ':'. */
  function ValueOf(token: string): Option<string> {
    var pieces := Split(token, ":");
    if |pieces| >= 2 then Some(pieces[1]) else None
  }

  /** No later token has the same key as token `i`. */
  predicate LastWithKey(tokens: seq<string>, i: nat)
    requires i < |tokens|
  {
    forall j :: i < j < |tokens| ==> KeyOf(tokens[j]) != KeyOf(tokens[i])
  }

  /** The loop `obj[k] = v` over the tokens. */
  function Fields(tokens: seq<string>): Passport {
    if |tokens| == 0 then map[]
    else Fields(tokens[..|tokens| - 1])[KeyOf(tokens[|tokens| - 1]) := ValueOf(tokens[|tokens| - 1])]
  }

  /** A key is present exactly when some token carries it. */
  lemma {:induction false} FieldsKeys(tokens: seq<string>)
    ensures forall k :: k in Fields(tokens) <==> exists i :: 0 <= i < |tokens| && KeyOf(tokens[i]) == k
  {
    if |tokens| > 0 {
      var front := tokens[..|tokens| - 1];
      FieldsKeys(front);
      assert forall i :: 0 <= i < |front| ==> front[i] == tokens[i];
    }
  }

  /** A later token overwrites an earlier one: a key holds the value of its last token. */
  lemma {:induction false} FieldsLastWins(tokens: seq<string>, i: nat)
    requires i < |tokens| && LastWithKey(tokens, i)
    ensures KeyOf(tokens[i]) in Fields(tokens)
    ensures Fields(tokens)[KeyOf(tokens[i])] == ValueOf(tokens[i])
  {
    var front := tokens[..|tokens| - 1];
    if i < |tokens| - 1 {
      assert LastWithKey(front, i) by {
        assert forall j :: i < j < |front| ==> front[j] == tokens[j];
      }
      FieldsLastWins(front, i);
    }
  }

  function ParsePassport(block: string): Passport {
    Fields(Tokens(block))
  }

  // ---------------------------------------------------------------------
  // Printing, the inverse of parsing
  // ---------------------------------------------------------------------

  /** A field that prints as one token: its key and value hold no ':', ' ' or newline. */
  predicate Printable(s: string) {
    ':' !in s && ' ' !in s && '\n' !in s
  }

  function FieldToken(field: (string, string)): string {
    field.0 + ":" + field.1
  }

  /** Prints `fields` as one line of `key:value` tokens. */
  function FormatPassport(fields: seq<(string, string)>): string {
    Join(seq(|fields|, i requires 0 <= i < |fields| => FieldToken(fields[i])), " ")
  }

  predicate DistinctKeys(fields: seq<(string, string)>) {
    forall i, j :: 0 <= i < j < |fields| ==> fields[i].0 != fields[j].0
  }

  lemma TokenRoundTrip(field: (string, string))
    requires Printable(field.0) && Printable(field.1)
    ensures KeyOf(FieldToken(field)) == field.0
    ensures ValueOf(FieldToken(field)) == Some(field.1)
  {
    assert Join([field.0, field.1], ":") == FieldToken(field);
    SplitJoin([field.0, field.1], ':');
  }

  function FieldTokens(fields: seq<(string, string)>): (tokens: seq<string>)
    ensures |tokens| == |fields|
  {
    seq(|fields|, i requires 0 <= i < |fields| => FieldToken(fields[i]))
  }

  /** Printed fields come back as the same tokens. */
  lemma TokensRoundTrip(fields: seq<(string, string)>)
    requires |fields| >= 1
    requires forall i :: 0 <= i < |fields| ==> Printable(fields[i].0) && Printable(fields[i].1)
    ensures Tokens(FormatPassport(fields)) == FieldTokens(fields)
    ensures forall i :: 0 <= i < |fields| ==> KeyOf(FieldTokens(fields)[i]) == fields[i].0
    ensures forall i :: 0 <= i < |fields| ==> ValueOf(FieldTokens(fields)[i]) == Some(fields[i].1)
  {
    var tokens := FieldTokens(fields);
    forall i | 0 <= i < |fields|
      ensures ' ' !in tokens[i] && '\n' !in tokens[i]
      ensures KeyOf(tokens[i]) == fields[i].0 && ValueOf(tokens[i]) == Some(fields[i].1)
    {
      TokenRoundTrip(fields[i]);
    }
    JoinAvoids(tokens, " ", '\n');
    ReplaceAllEffect(FormatPassport(fields), '\n', ' ');
    SplitJoin(tokens, ' ');
  }

  /**
   * Parsing a printed passport gives back its fields: exactly the printed
   * keys, each with its printed value.
   */
  lemma ParseFormatRoundTrip(fields: seq<(string, string)>)
    requires |fields| >= 1 && DistinctKeys(fields)
    requires forall i :: 0 <= i < |fields| ==> Printable(fields[i].0) && Printable(fields[i].1)
    ensures forall k :: k in ParsePassport(FormatPassport(fields)) <==> exists i :: 0 <= i < |fields| && fields[i].0 == k
    ensures forall i :: 0 <= i < |fields| ==> Get(ParsePassport(FormatPassport(fields)), fields[i].0) == Some(fields[i].1)
  {
    var tokens := FieldTokens(fields);
    TokensRoundTrip(fields);
    FieldsKeys(tokens);
    forall i | 0 <= i < |fields|
      ensures Get(Fields(tokens), fields[i].0) == Some(fields[i].1)
    {
      FieldsLastWins(tokens, i);
    }
  }

  // ---------------------------------------------------------------------
  // Field rules
  // ---------------------------------------------------------------------

  const Required: seq<string> := ["byr", "iyr", "eyr", "hgt", "hcl", "ecl", "pid"]

  const EyeColors: set<string> := {"amb", "blu", "brn", "gry", "grn", "hzl", "oth"}

  /** `p[key]`: `undefined` (`None`) for a key the passport lacks. */
  function Get(p: Passport, key: string): Option<string> {
    if key in p then p[key] else None
  }

  /** `REQUIRED.every((key) => key in p)`. */
  predicate HasRequiredFields(p: Passport) {
    forall k :: 0 <= k < |Required| ==> Required[k] in p
  }

  /**
   * `Number(s)` for the strings the model reads: the empty string is 0, a
   * run of decimal digits is its value, and anything else is NaN (`None`).
   */
  function NumberOf(s: string): Option<nat> {
    if s == "" then Some(0) else ParseDecimal(s)
  }

  /** `n >= lo && n <= hi`, which is false when `n` is NaN. */
  predicate Within(n: Option<nat>, lo: int, hi: int) {
    n.Some? && lo <= n.value <= hi
  }

  /** A digit string whose decimal value lies in [lo, hi]. */
  predicate DecimalIn(s: string, lo: int, hi: int) {
    |s| > 0 && AllDigits(s) && lo <= DecimalValue(s) <= hi
  }

  /**
   * `isYearInRange(value, min, max)`: `Number(undefined)` is NaN, so a
   * missing value is out of range. For a positive minimum, the value is in
   * range exactly when it is a digit string whose value lies in [min, max].
   */
  function IsYearInRange(value: Option<string>, min: int, max: int): (b: bool)
    ensures min > 0 ==> (b <==> value.Some? && DecimalIn(value.value, min, max))
  {
    value.Some? && Within(NumberOf(value.value), min, max)
  }

  lemma YearRoundTrip(year: nat, min: int, max: int)
    ensures IsYearInRange(Some(ShowDecimal(year)), min, max) <==> min <= year <= max
  {
    DecimalRoundTrip(year);
  }

  predicate EndsWith(s: string, suffix: string) {
    |suffix| <= |s| && s[|s| - |suffix|..] == suffix
  }

  /** The height rule: a number of centimetres in [150, 193] or inches in [59, 76]. */
  predicate HeightRule(s: string) {
    |s| >= 2
    && var number, unit := s[..|s| - 2], s[|s| - 2..];
    (unit == "cm" && DecimalIn(number, 150, 193)) || (unit == "in" && DecimalIn(number, 59, 76))
  }

  /**
   * `isValidHeight(hgt)`. Calling `endsWith` on `undefined` throws a
   * TypeError, which ends the program: that is the error outcome.
   */
  function IsValidHeight(hgt: Option<string>): (r: Result<bool>)
    ensures r.Err? <==> hgt.None?
    ensures r == Ok(true) <==> hgt.Some? && HeightRule(hgt.value)
  {
    match hgt
    case None => Err("TypeError: hgt is undefined")
    case Some(h) =>
      if EndsWith(h, "cm") then Ok(Within(NumberOf(h[..|h| - 2]), 150, 193))
      else if EndsWith(h, "in") then Ok(Within(NumberOf(h[..|h| - 2]), 59, 76))
      else Ok(false)
  }

  lemma HeightRoundTrip(n: nat)
    ensures IsValidHeight(Some(ShowDecimal(n) + "cm")) == Ok(150 <= n <= 193)
    ensures IsValidHeight(Some(ShowDecimal(n) + "in")) == Ok(59 <= n <= 76)
  {
    DecimalRoundTrip(n);
    var s := ShowDecimal(n);
    assert (s + "cm")[..|s|] == s && (s + "cm")[|s|..] == "cm";
    assert (s + "in")[..|s|] == s && (s + "in")[|s|..] == "in";
  }

  predicate IsHexDigit(c: char) {
    IsDigit(c) || 'a' <= c <= 'f'
  }

  /**
   * `HCL_RE.test(v)` for `/^#[0-9a-f]{6}$/`; `undefined` is matched as the
   * string "undefined", which does not match.
   */
  predicate IsHairColor(v: Option<string>) {
    v.Some? && |v.value| == 7 && v.value[0] == '#'
    && forall i :: 1 <= i < 7 ==> IsHexDigit(v.value[i])
  }

  /** `PID_RE.test(v)` for `/^\d{9}$/`: exactly nine digits, leading zeros kept. */
  predicate IsPassportId(v: Option<string>) {
    v.Some? && |v.value| == 9 && AllDigits(v.value)
  }

  /** `ECL_ALLOWED.has(v)`. */
  predicate IsEyeColor(v: Option<string>) {
    v.Some? && v.value in EyeColors
  }

  // ---------------------------------------------------------------------
  // Fixed-width spellings: what `[0-9a-f]{6}` and `\d{9}` accept
  // ---------------------------------------------------------------------

  function Pow(base: nat, e: nat): nat {
    if e == 0 then 1 else base * Pow(base, e - 1)
  }

  /** The value of a lower-case hexadecimal digit. */
  function HexValue(c: char): (d: nat)
    requires IsHexDigit(c)
    ensures d < 16
  {
    if IsDigit(c) then DigitValue(c) else c as int - 'a' as int + 10
  }

  /** The lower-case digit of value `d`: '0' to '9', then 'a' to 'f'. */
  function LowerDigit(d: nat): (c: char)
    requires d < 16
    ensures IsHexDigit(c) && HexValue(c) == d
  {
    if d < 10 then DigitChar(d) else ('a' as int + (d - 10)) as char
  }

  /** One of the first `radix` characters of `0123456789abcdef`. */
  predicate IsRadixDigit(c: char, radix: nat) {
    IsHexDigit(c) && HexValue(c) < radix
  }

  predicate AllRadixDigits(s: string, radix: nat) {
    forall i :: 0 <= i < |s| ==> IsRadixDigit(s[i], radix)
  }

  /**
   * The `width`-digit spelling of `n` in `radix`, padded on the left with
   * zeros; digits above the width are dropped.
   */
  function Spelled(n: nat, width: nat, radix: nat): (s: string)
    requires 2 <= radix <= 16
    ensures |s| == width && AllRadixDigits(s, radix)
  {
    if width == 0 then "" else Spelled(n / radix, width - 1, radix) + [LowerDigit(n % radix)]
  }

  /** The value of a string of `radix` digits, most significant digit first. */
  function ValueIn(s: string, radix: nat): nat
    requires AllRadixDigits(s, radix)
  {
    if |s| == 0 then 0 else ValueIn(s[..|s| - 1], radix) * radix + HexValue(s[|s| - 1])
  }

  lemma DivBelow(n: nat, radix: nat, p: nat)
    requires radix > 0 && n < radix * p
    ensures n / radix < p
    ensures n == n / radix * radix + n % radix
  {
    var q := n / radix;
    assert radix * q <= n;
    MulCancel(radix, q, p);
  }

  lemma MulCancel(a: nat, x: nat, y: nat)
    requires a * x < a * y
    ensures x < y
  {
  }

  lemma MulBelow(v: nat, d: nat, radix: nat, p: nat)
    requires v < p && d < radix
    ensures v * radix + d < radix * p
  {
    assert v * radix <= (p - 1) * radix;
  }

  lemma Recompose(n: nat, radix: nat, v: nat)
    requires radix > 0 && v == n / radix
    ensures v * radix + n % radix == n
  {
  }

  lemma ValueAppend(t: string, c: char, radix: nat)
    requires AllRadixDigits(t, radix) && IsRadixDigit(c, radix)
    ensures AllRadixDigits(t + [c], radix)
    ensures ValueIn(t + [c], radix) == ValueIn(t, radix) * radix + HexValue(c)
  {
    assert (t + [c])[..|t|] == t;
  }

  /** Reading a spelling back gives the number, when it fits in the width. */
  lemma {:induction false} SpelledValue(n: nat, width: nat, radix: nat)
    requires 2 <= radix <= 16 && n < Pow(radix, width)
    ensures ValueIn(Spelled(n, width, radix), radix) == n
    decreases width
  {
    if width > 0 {
      assert Pow(radix, width) == radix * Pow(radix, width - 1);
      DivBelow(n, radix, Pow(radix, width - 1));
      SpelledValue(n / radix, width - 1, radix);
      SpelledLast(n, width, radix);
    }
  }

  /** The last digit of a spelling completes the value of the digits before it. */
  lemma SpelledLast(n: nat, width: nat, radix: nat)
    requires 2 <= radix <= 16 && width > 0
    requires ValueIn(Spelled(n / radix, width - 1, radix), radix) == n / radix
    ensures ValueIn(Spelled(n, width, radix), radix) == n
  {
    var t, c := Spelled(n / radix, width - 1, radix), LowerDigit(n % radix);
    assert Spelled(n, width, radix) == t + [c];
    ValueAppend(t, c, radix);
    Recompose(n, radix, ValueIn(t, radix));
  }

  /** Every digit string is the spelling, at its own width, of its value. */
  lemma {:induction false} ValueSpelled(s: string, radix: nat)
    requires 2 <= radix <= 16 && AllRadixDigits(s, radix)
    ensures ValueIn(s, radix) < Pow(radix, |s|)
    ensures Spelled(ValueIn(s, radix), |s|, radix) == s
  {
    if |s| > 0 {
      var init, last := s[..|s| - 1], s[|s| - 1];
      assert AllRadixDigits(init, radix);
      ValueSpelled(init, radix);
      var v, d := ValueIn(init, radix), HexValue(last);
      var n := v * radix + d;
      assert ValueIn(s, radix) == n;
      DivMod(v, d, radix);
      MulBelow(v, d, radix, Pow(radix, |s| - 1));
      LowerOfHex(last);
      assert Spelled(n, |s|, radix) == Spelled(v, |init|, radix) + [LowerDigit(d)];
      assert s == init + [last];
    }
  }

  lemma DivMod(v: nat, d: nat, radix: nat)
    requires 0 <= d < radix
    ensures (v * radix + d) / radix == v && (v * radix + d) % radix == d
  {
    var n := v * radix + d;
    var q, m := n / radix, n % radix;
    assert n == q * radix + m;
    assert (v - q) * radix == m - d;
    SmallMultiple(v - q, radix, m - d);
  }

  lemma SmallMultiple(k: int, r: int, e: int)
    requires r > 0 && -r < e < r && k * r == e
    ensures k == 0
  {
    MulGrows(k, r);
  }

  lemma MulGrows(k: int, r: int)
    requires r > 0
    ensures k >= 1 ==> k * r >= r
    ensures k <= -1 ==> k * r <= -r
  {
    if k >= 1 {
      assert k * r == (k - 1) * r + r;
    } else if k <= -1 {
      assert k * r == (k + 1) * r - r;
    }
  }

  lemma LowerOfHex(c: char)
    requires IsHexDigit(c)
    ensures LowerDigit(HexValue(c)) == c
  {
  }

  /** In radix 10 the digits are `\d` and the value is the decimal one. */
  lemma {:induction false} DecimalIsRadix10(s: string)
    requires AllRadixDigits(s, 10)
    ensures AllDigits(s) && ValueIn(s, 10) == DecimalValue(s)
  {
    if |s| > 0 {
      DecimalIsRadix10(s[..|s| - 1]);
    }
  }

  /**
   * `/^#[0-9a-f]{6}$/`: the passing values are exactly `#` followed by the
   * six lower-case hexadecimal digits of a number below 2^24.
   */
  lemma HairColorSpelling(v: Option<string>)
    ensures IsHairColor(v) <==> v.Some? && exists n: nat :: n < 0x100_0000 && v.value == "#" + Spelled(n, 6, 16)
  {
    assert Pow(16, 6) == 0x100_0000;
    if IsHairColor(v) {
      var hex := v.value[1..];
      assert AllRadixDigits(hex, 16);
      ValueSpelled(hex, 16);
      assert v.value == "#" + Spelled(ValueIn(hex, 16), 6, 16);
    }
    if v.Some? && exists n: nat :: n < 0x100_0000 && v.value == "#" + Spelled(n, 6, 16) {
      var n: nat :| n < 0x100_0000 && v.value == "#" + Spelled(n, 6, 16);
      assert forall i :: 1 <= i < 7 ==> v.value[i] == Spelled(n, 6, 16)[i - 1];
    }
  }

  /**
   * `/^\d{9}$/`: the passing values are exactly the nine-digit zero-padded
   * spellings of the numbers below 10^9, and each reads back as its number,
   * so leading zeros are part of a valid ID.
   */
  lemma PassportIdSpelling(v: Option<string>)
    ensures IsPassportId(v) <==> v.Some? && exists n: nat :: n < 1_000_000_000 && v.value == Spelled(n, 9, 10)
    ensures forall n: nat :: n < 1_000_000_000 ==> DecimalValue(Spelled(n, 9, 10)) == n
  {
    assert Pow(10, 9) == 1_000_000_000;
    forall n: nat | n < 1_000_000_000
      ensures DecimalValue(Spelled(n, 9, 10)) == n
    {
      SpelledValue(n, 9, 10);
      DecimalIsRadix10(Spelled(n, 9, 10));
    }
    if IsPassportId(v) {
      assert AllRadixDigits(v.value, 10);
      ValueSpelled(v.value, 10);
    }
    if v.Some? && exists n: nat :: n < 1_000_000_000 && v.value == Spelled(n, 9, 10) {
      var n: nat :| n < 1_000_000_000 && v.value == Spelled(n, 9, 10);
      DecimalIsRadix10(v.value);
    }
  }

  /** `ECL_ALLOWED.has(v)`: exactly the seven listed codes pass, and `undefined` does not. */
  lemma EyeColorsListed(v: Option<string>)
    ensures IsEyeColor(v) <==> v.Some? && v.value in ["amb", "blu", "brn", "gry", "grn", "hzl", "oth"]
    ensures |EyeColors| == 7
  {
    assert EyeColors == {"amb", "blu", "brn", "gry", "grn", "hzl", "oth"};
  }

  /** The first four checks of `isValidPassport`, which cannot fail. */
  predicate PassesBeforeHeight(p: Passport) {
    HasRequiredFields(p)
    && IsYearInRange(Get(p, "byr"), 1920, 2002)
    && IsYearInRange(Get(p, "iyr"), 2010, 2020)
    && IsYearInRange(Get(p, "eyr"), 2020, 2030)
  }

  /** The seven required keys, listed. */
  lemma RequiredListed(p: Passport)
    ensures HasRequiredFields(p) <==>
      "byr" in p && "iyr" in p && "eyr" in p && "hgt" in p && "hcl" in p && "ecl" in p && "pid" in p
  {
    assert Required[0] == "byr" && Required[1] == "iyr" && Required[2] == "eyr" && Required[3] == "hgt";
    assert Required[4] == "hcl" && Required[5] == "ecl" && Required[6] == "pid";
  }

  predicate YearRule(v: Option<string>, lo: int, hi: int) {
    v.Some? && DecimalIn(v.value, lo, hi)
  }

  /** The field rules stated on their own, field by field. */
  predicate FieldRules(p: Passport) {
    && YearRule(Get(p, "byr"), 1920, 2002)
    && YearRule(Get(p, "iyr"), 2010, 2020)
    && YearRule(Get(p, "eyr"), 2020, 2030)
    && Get(p, "hgt").Some? && HeightRule(Get(p, "hgt").value)
    && IsHairColor(Get(p, "hcl")) && IsEyeColor(Get(p, "ecl")) && IsPassportId(Get(p, "pid"))
  }

  /**
   * `isValidPassport(p)`: the checks run in order and stop at the first
   * failure; reaching the height check with `hgt` undefined throws.
   */
  function IsValidPassport(p: Passport): (r: Result<bool>)
    ensures r.Err? <==> PassesBeforeHeight(p) && Get(p, "hgt").None?
    ensures r == Ok(true) <==> FieldRules(p)
    ensures r == Ok(true) ==> HasRequiredFields(p)
  {
    RequiredListed(p);
    if !PassesBeforeHeight(p) then Ok(false)
    else match IsValidHeight(Get(p, "hgt"))
      case Err(e) => Err(e)
      case Ok(h) => Ok(h && IsHairColor(Get(p, "hcl")) && IsEyeColor(Get(p, "ecl")) && IsPassportId(Get(p, "pid")))
  }

  /** `cid` takes no part in either check. */
  lemma CidIrrelevant(p: Passport, v: Option<string>)
    ensures HasRequiredFields(p["cid" := v]) == HasRequiredFields(p)
    ensures IsValidPassport(p["cid" := v]) == IsValidPassport(p)
  {
    var q := p["cid" := v];
    RequiredListed(p);
    RequiredListed(q);
    assert Get(q, "byr") == Get(p, "byr") && Get(q, "iyr") == Get(p, "iyr") && Get(q, "eyr") == Get(p, "eyr");
    assert Get(q, "hgt") == Get(p, "hgt") && Get(q, "hcl") == Get(p, "hcl");
    assert Get(q, "ecl") == Get(p, "ecl") && Get(q, "pid") == Get(p, "pid");
  }

  // ---------------------------------------------------------------------
  // Counting
  // ---------------------------------------------------------------------

  /** The number of passports with every required field. */
  function RequiredCount(ps: seq<Passport>): nat {
    if |ps| == 0 then 0
    else RequiredCount(ps[..|ps| - 1]) + (if HasRequiredFields(ps[|ps| - 1]) then 1 else 0)
  }

  /** The number of valid passports, or the error of the first passport whose check throws. */
  function ValidCount(ps: seq<Passport>): Result<nat> {
    if |ps| == 0 then Ok(0)
    else match ValidCount(ps[..|ps| - 1])
      case Err(e) => Err(e)
      case Ok(n) =>
        match IsValidPassport(ps[|ps| - 1])
        case Err(e) => Err(e)
        case Ok(b) => Ok(n + if b then 1 else 0)
  }

  /** Every valid passport has its required fields, so part 2 never exceeds part 1. */
  lemma {:induction false} ValidAtMostRequired(ps: seq<Passport>)
    ensures ValidCount(ps).Ok? ==> ValidCount(ps).value <= RequiredCount(ps)
  {
    if |ps| > 0 {
      ValidAtMostRequired(ps[..|ps| - 1]);
    }
  }

  /** Part 2 fails exactly when some passport reaches the height check without a height. */
  lemma {:induction false} ValidCountFails(ps: seq<Passport>)
    ensures ValidCount(ps).Err? <==> exists i :: 0 <= i < |ps| && PassesBeforeHeight(ps[i]) && Get(ps[i], "hgt").None?
  {
    if |ps| > 0 {
      ValidCountFails(ps[..|ps| - 1]);
      var last := ps[|ps| - 1];
      if PassesBeforeHeight(last) && Get(last, "hgt").None? {
        assert IsValidPassport(last).Err?;
      } else {
        assert forall i :: 0 <= i < |ps| - 1 ==> ps[..|ps| - 1][i] == ps[i];
      }
    }
  }

  /** The two counting loops of the program. */
  method CountPassports(ps: seq<Passport>) returns (part1: nat, part2: Result<nat>)
    ensures part1 == RequiredCount(ps)
    ensures part2 == ValidCount(ps)
    ensures part2.Ok? ==> part2.value <= part1
  {
    part1 := CountRequired(ps);
    part2 := CountValid(ps);
    ValidAtMostRequired(ps);
  }

  /** The part 1 loop: records with every required key. */
  method CountRequired(ps: seq<Passport>) returns (part1: nat)
    ensures part1 == RequiredCount(ps)
  {
    part1 := 0;
    var i := 0;
    while i < |ps|
      invariant 0 <= i <= |ps|
      invariant part1 == RequiredCount(ps[..i])
    {
      CountStep(ps, i);
      if HasRequiredFields(ps[i]) {
        part1 := part1 + 1;
      }
      i := i + 1;
    }
    assert ps[..i] == ps;
  }

  /** The part 2 loop: valid records, ending at the first throw. */
  method CountValid(ps: seq<Passport>) returns (part2: Result<nat>)
    ensures part2 == ValidCount(ps)
  {
    var count := 0;
    var i := 0;
    while i < |ps|
      invariant 0 <= i <= |ps|
      invariant ValidCount(ps[..i]) == Ok(count)
    {
      CountStep(ps, i);
      var valid := IsValidPassport(ps[i]);
      if valid.Err? {
        ValidCountErr(ps, i + 1);
        return Err(valid.message);
      }
      if valid.value {
        count := count + 1;
      }
      i := i + 1;
    }
    assert ps[..i] == ps;
    part2 := Ok(count);
  }

  lemma CountStep(ps: seq<Passport>, i: nat)
    requires i < |ps|
    ensures RequiredCount(ps[..i + 1]) == RequiredCount(ps[..i]) + (if HasRequiredFields(ps[i]) then 1 else 0)
    ensures ValidCount(ps[..i + 1]) == match ValidCount(ps[..i])
      case Err(e) => Err(e)
      case Ok(n) => (match IsValidPassport(ps[i]) case Err(e) => Err(e) case Ok(b) => Ok(n + if b then 1 else 0))
  {
    assert ps[..i + 1][..i] == ps[..i];
  }

  /** Once a prefix fails, the whole count fails with the same error. */
  lemma {:induction false} ValidCountErr(ps: seq<Passport>, n: nat)
    requires n <= |ps| && ValidCount(ps[..n]).Err?
    ensures ValidCount(ps) == ValidCount(ps[..n])
    decreases |ps| - n
  {
    if n < |ps| {
      assert ps[..n + 1][..n] == ps[..n];
      ValidCountErr(ps, n + 1);
    } else {
      assert ps[..n] == ps;
    }
  }
}
