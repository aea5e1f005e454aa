/** The lifetime of an environment: the CLI's duration grammar, the cast into the
    request, and the server's checked date arithmetic. */
module Ttl {
  import opened Prelude
  import opened Decimal

  const U64_MAX: nat := 0xffff_ffff_ffff_ffff
  const I64_LIMIT: nat := 0x8000_0000_0000_0000
  const U64_LIMIT: nat := 0x1_0000_0000_0000_0000

  // ---- parse_duration_secs

  function UnitSecs(c: char): Option<nat> {
    match c
    case 's' => Some(1)
    case 'm' => Some(60)
    case 'h' => Some(3600)
    case 'd' => Some(86400)
    case _ => None
  }

  /** `add`: parse, multiply and add, each step refused outside u64. */
  function Add(total: nat, digits: string, multiple: nat): (r: Option<nat>)
    ensures r.Some? ==> r.value <= U64_MAX
  {
    var n := Value(digits);
    if n > U64_MAX || n * multiple > U64_MAX || total + n * multiple > U64_MAX then None
    else Some(total + n * multiple)
  }

  /** What the end of the input makes of the running total and unconsumed digits. */
  function ScanEnd(total: nat, digits: string): Option<nat> {
    var sum := if digits == "" then Some(total) else Add(total, digits, 1);
    if sum.Some? && sum.value > 0 then sum else None
  }

  /** Reading the rest of the input with a running total and unconsumed digits. */
  function Scan(s: string, total: nat, digits: string): Option<nat>
    decreases |s|
  {
    if s == "" then ScanEnd(total, digits)
    else if IsDigit(s[0]) then Scan(s[1..], total, digits + [s[0]])
    else if digits == "" || UnitSecs(s[0]).None? then None
    else
      var sum := Add(total, digits, UnitSecs(s[0]).value);
      if sum.None? then None else Scan(s[1..], sum.value, "")
  }

  /** `parse_duration_secs`. */
  method ParseDurationSecs(input: string) returns (r: Option<nat>)
    ensures r == Scan(input, 0, "")
  {
    if input == "" {
      return None;
    }
    var total := 0;
    var digits := "";
    for i := 0 to |input|
      invariant Scan(input[i..], total, digits) == Scan(input, 0, "")
    {
      var ch := input[i];
      assert input[i..][1..] == input[i + 1..];
      if IsDigit(ch) {
        digits := digits + [ch];
        continue;
      }
      if digits == "" || UnitSecs(ch).None? {
        return None;
      }
      var sum := Add(total, digits, UnitSecs(ch).value);
      if sum.None? {
        return None;
      }
      total := sum.value;
      digits := "";
    }
    assert input[|input|..] == "";
    if digits != "" {
      var sum := Add(total, digits, 1);
      if sum.None? {
        return None;
      }
      total := sum.value;
    }
    r := if total > 0 then Some(total) else None;
  }

  // ---- the grammar, independently of the parser

  /** Seconds, minutes, hours and days. */
  const UNITS: map<char, nat> := map['s' := 1, 'm' := 60, 'h' := 60 * 60, 'd' := 24 * 60 * 60]

  lemma UnitsExactly(c: char)
    ensures UnitSecs(c).Some? <==> c in UNITS
    ensures c in UNITS ==> UnitSecs(c) == Some(UNITS[c]) && UNITS[c] >= 1
  {
  }

  /** A number with its unit. */
  datatype Term = Term(digits: string, unit: char)

  predicate WellFormed(t: Term) { t.digits != "" && AllDigits(t.digits) && t.unit in UNITS }

  predicate AllWellFormed(terms: seq<Term>) {
    forall i :: 0 <= i < |terms| ==> WellFormed(terms[i])
  }

  /** Terms with units, then digits counting plain seconds, possibly none. */
  function Text(terms: seq<Term>, bare: string): string {
    if terms == [] then bare else terms[0].digits + [terms[0].unit] + Text(terms[1..], bare)
  }

  function TermSeconds(t: Term): nat
    requires WellFormed(t)
  {
    ValueByPlace(t.digits);
    ByPlace(t.digits) * UNITS[t.unit]
  }

  function Seconds(terms: seq<Term>, bare: string): nat
    requires AllWellFormed(terms) && AllDigits(bare)
  {
    ValueByPlace(bare);
    if terms == [] then ByPlace(bare) else TermSeconds(terms[0]) + Seconds(terms[1..], bare)
  }

  /** `s` is the text of these terms. */
  predicate Spells(terms: seq<Term>, bare: string, s: string) {
    AllWellFormed(terms) && AllDigits(bare) && s == Text(terms, bare)
  }

  /** `s` is a duration of `v` seconds. */
  ghost predicate Denotes(s: string, v: nat) {
    exists terms: seq<Term>, bare: string :: Spells(terms, bare, s) && v == Seconds(terms, bare)
  }

  lemma {:induction false} ScanDigits(digits: string, rest: string, total: nat, held: string)
    requires AllDigits(digits)
    ensures Scan(digits + rest, total, held) == Scan(rest, total, held + digits)
    decreases |digits|
  {
    if digits == "" {
      assert digits + rest == rest && held + digits == held;
    } else {
      assert (digits + rest)[1..] == digits[1..] + rest;
      ScanDigits(digits[1..], rest, total, held + [digits[0]]);
      assert held + [digits[0]] + digits[1..] == held + digits;
    }
  }

  lemma ScanTerm(t: Term, rest: string, total: nat)
    requires WellFormed(t)
    ensures Scan(t.digits + [t.unit] + rest, total, "")
         == if total + TermSeconds(t) <= U64_MAX then Scan(rest, total + TermSeconds(t), "") else None
  {
    hide Scan, Add, ByPlace, Value;
    UnitsExactly(t.unit);
    ValueByPlace(t.digits);
    Joining(t.digits, [t.unit], rest);
    ScanDigits(t.digits, [t.unit] + rest, total, "");
    AddExact(total, t.digits, UNITS[t.unit]);
    UnitEnds(t, rest, total);
  }

  lemma Joining(a: string, b: string, c: string)
    ensures a + b + c == a + (b + c) && "" + a == a && a + "" == a
  {
  }

  lemma UnitEnds(t: Term, rest: string, total: nat)
    requires WellFormed(t) && UnitSecs(t.unit) == Some(UNITS[t.unit])
    ensures Scan([t.unit] + rest, total, t.digits)
         == var sum := Add(total, t.digits, UNITS[t.unit]); if sum.None? then None else Scan(rest, sum.value, "")
  {
    assert ([t.unit] + rest)[1..] == rest;
    hide Add, AllDigits;
  }

  lemma ScanBare(bare: string, total: nat)
    requires AllDigits(bare) && total <= U64_MAX
    ensures Scan(bare, total, "") == if 0 < total + Value(bare) <= U64_MAX then Some(total + Value(bare)) else None
  {
    assert bare == "" ==> Value(bare) == 0;
    hide Scan, Add, Value;
    Joining(bare, "", "");
    ScanDigits(bare, "", total, "");
    AddExact(total, bare, 1);
    ScanEnds(total, bare);
  }

  lemma ScanEnds(total: nat, digits: string)
    ensures Scan("", total, digits) == ScanEnd(total, digits)
  {
  }

  /** The scan of a text of the grammar returns its exact value, refusing only
      a sum of zero or one past u64. */
  lemma {:induction false} ScanOfText(terms: seq<Term>, bare: string, total: nat)
    requires AllWellFormed(terms) && AllDigits(bare) && total <= U64_MAX
    ensures Scan(Text(terms, bare), total, "")
         == if 0 < total + Seconds(terms, bare) <= U64_MAX then Some(total + Seconds(terms, bare)) else None
    decreases |terms|
  {
    if terms == [] {
      ValueByPlace(bare);
      ScanBare(bare, total);
    } else {
      ScanTerm(terms[0], Text(terms[1..], bare), total);
      hide Scan;
      if total + TermSeconds(terms[0]) <= U64_MAX {
        ScanOfText(terms[1..], bare, total + TermSeconds(terms[0]));
      }
    }
  }

  lemma TimesAtLeast(n: nat, multiple: nat)
    requires multiple >= 1
    ensures n * multiple >= n
  {
  }

  lemma AddExact(total: nat, digits: string, multiple: nat)
    requires multiple >= 1
    ensures Add(total, digits, multiple)
         == if total + Value(digits) * multiple <= U64_MAX then Some(total + Value(digits) * multiple) else None
  {
    var n := Value(digits);
    TimesAtLeast(n, multiple);
  }

  lemma SpellsCons(t: Term, terms: seq<Term>, bare: string, rest: string)
    requires WellFormed(t) && Spells(terms, bare, rest)
    ensures Spells([t] + terms, bare, t.digits + [t.unit] + rest)
  {
    assert ([t] + terms)[1..] == terms;
  }

  /** A text the scan accepts, together with digits already read, belongs to the grammar. */
  lemma {:induction false} ScanIsGrammatical(s: string, total: nat, digits: string) returns (terms: seq<Term>, bare: string)
    requires AllDigits(digits) && Scan(s, total, digits).Some?
    ensures Spells(terms, bare, digits + s)
    decreases |s|
  {
    if s == "" {
      assert digits + s == digits;
      terms, bare := [], digits;
    } else if IsDigit(s[0]) {
      terms, bare := ScanIsGrammatical(s[1..], total, digits + [s[0]]);
      assert digits + [s[0]] + s[1..] == digits + s;
    } else {
      terms, bare := ScanIsGrammatical(s[1..], Add(total, digits, UnitSecs(s[0]).value).value, "");
      assert "" + s[1..] == s[1..];
      UnitsExactly(s[0]);
      SpellsCons(Term(digits, s[0]), terms, bare, s[1..]);
      terms := [Term(digits, s[0])] + terms;
      assert digits + s == digits + [s[0]] + s[1..];
    }
  }

  /** The parser accepts exactly the texts of the grammar whose sum lies between
      1 and u64::MAX, with that sum. */
  lemma ParserIsExact(s: string, v: nat)
    ensures Scan(s, 0, "") == Some(v) <==> Denotes(s, v) && 0 < v < 0x1_0000_0000_0000_0000
  {
    if Scan(s, 0, "") == Some(v) {
      var terms, bare := ScanIsGrammatical(s, 0, "");
      assert "" + s == s;
      ScanOfText(terms, bare, 0);
    }
    if Denotes(s, v) && 0 < v <= U64_MAX {
      var terms: seq<Term>, bare: string :| Spells(terms, bare, s) && v == Seconds(terms, bare);
      ScanOfText(terms, bare, 0);
    }
  }

  // ---- the request and the server

  /** The 64-bit signed number congruent to an unsigned one. */
  predicate IsWrapped(v: nat, r: int) {
    -0x8000_0000_0000_0000 <= r < 0x8000_0000_0000_0000 && (r == v || r == v - 0x1_0000_0000_0000_0000)
  }

  /** `u64 as i64`: values from 2^63 up wrap to negative ones. */
  function AsI64(v: nat): (r: int)
    requires v <= U64_MAX
    ensures IsWrapped(v, r)
  {
    if v < I64_LIMIT then v else v - U64_LIMIT
  }

  /** The parts of the config file and of the request, over the types of block
      policies, component sets and version pins. */
  datatype Config<P, C, V> =
    Config(name: Option<string>, policy: Option<P>, components: Option<C>, versions: Option<V>, ttl: Option<string>)

  datatype CreateParams<P, C, V> =
    CreateParams(name: string, policy: Option<P>, components: C, versions: Option<V>, ttl: Option<int>)

  datatype ParamsError = BadDuration | NoName

  /** A lifetime text, where there is one, denotes an acceptable value. */
  ghost predicate Acceptable(text: Option<string>) {
    text.Some? ==> exists v: nat :: Denotes(text.value, v) && 0 < v <= U64_MAX
  }

  /** The signed number that the text's value becomes. */
  ghost predicate IsCastOf(text: string, ttl: int) {
    exists v: nat :: Denotes(text, v) && 0 < v < 0x1_0000_0000_0000_0000 && IsWrapped(v, ttl)
  }

  function FirstOf<T>(flag: Option<T>, file: Option<T>): Option<T> { if flag.Some? then flag else file }

  /** `build_create_params`: flags win over the file, the rest is the file's. */
  method BuildCreateParams<P, C, V>(config: Option<Config<P, C, V>>, noComponents: C,
                                    nameFlag: Option<string>, ttlFlag: Option<string>)
    returns (r: Result<CreateParams<P, C, V>, ParamsError>)
    ensures var file := if config.Some? then config.value else Config(None, None, None, None, None);
            var text := if ttlFlag.Some? then ttlFlag else file.ttl;
            var name := if nameFlag.Some? then nameFlag else file.name;
            && (r == Err(BadDuration) <==> !Acceptable(text))
            && (r == Err(NoName) <==> Acceptable(text) && name.None?)
            && (r.Ok? ==>
                  && name == Some(r.value.name) && r.value.policy == file.policy && r.value.versions == file.versions
                  && r.value.components == (if file.components.Some? then file.components.value else noComponents)
                  && (text.None? <==> r.value.ttl.None?)
                  && (text.Some? ==> r.value.ttl.Some? && IsCastOf(text.value, r.value.ttl.value)))
  {
    var file := if config.Some? then config.value else Config(None, None, None, None, None);
    var text := FirstOf(ttlFlag, file.ttl);
    var ttl: Option<int> := None;
    if text.Some? {
      var secs := ParseDurationSecs(text.value);
      if secs.None? {
        forall v: nat | Denotes(text.value, v) ensures v == 0 || v > U64_MAX {
          ParserIsExact(text.value, v);
        }
        return Err(BadDuration);
      }
      ParserIsExact(text.value, secs.value);
      ttl := Some(AsI64(secs.value));
    }
    var name := FirstOf(nameFlag, file.name);
    if name.None? {
      return Err(NoName);
    }
    var components := if file.components.Some? then file.components.value else noComponents;
    r := Ok(CreateParams(name.value, file.policy, components, file.versions, ttl));
  }

  /** Seconds in chrono's longest duration, i64::MAX milliseconds. */
  const LONGEST_DURATION: int := 9_223_372_036_854_775
  const TICKS_PER_SECOND: int := 1_000_000_000

  datatype TtlError = NotPositive | OutOfRange

  /** `resolve_expires_at`, on nanosecond ticks; `latest` is the last date the
      calendar can represent. */
  function ResolveExpiresAt(ttl: Option<int>, now: int, latest: int): Result<Option<int>, TtlError> {
    match ttl
    case None => Ok(None)
    case Some(s) =>
      if s <= 0 then Err(NotPositive)
      else if s > LONGEST_DURATION || now + s * TICKS_PER_SECOND > latest then Err(OutOfRange)
      else Ok(Some(now + s * TICKS_PER_SECOND))
  }

  /** The server rejects what is not positive, and what lies beyond chrono's
      longest duration or the calendar's last date; a request without a
      lifetime never expires. */
  lemma ResolveExactly(ttl: Option<int>, now: int, latest: int)
    ensures var r := ResolveExpiresAt(ttl, now, latest);
            && (ttl == None ==> r == Ok(None))
            && (r == Err(NotPositive) <==> ttl.Some? && ttl.value < 1)
            && (r == Err(OutOfRange) <==>
                  ttl.Some? && ttl.value >= 1 && (ttl.value > 9_223_372_036_854_775 || ttl.value * 1_000_000_000 > latest - now))
  {
  }

  /** From text to expiry: a lifetime the CLI accepts is either rejected by the
      server or gives exactly now plus its value; it is accepted exactly when
      that date exists and the duration is one chrono can hold. */
  lemma ExpiryIsExact(text: string, v: nat, now: int, latest: int)
    requires Denotes(text, v) && 0 < v <= U64_MAX
    ensures Scan(text, 0, "") == Some(v)
    ensures var r := ResolveExpiresAt(Some(AsI64(v)), now, latest);
            && (r.Ok? <==> v <= 9_223_372_036_854_775 && now + v * 1_000_000_000 <= latest)
            && (r.Ok? ==> r.value == Some(now + v * 1_000_000_000))
  {
    ParserIsExact(text, v);
  }
}
