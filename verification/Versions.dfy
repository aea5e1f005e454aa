/** Version strings, constraints and the catalog's validation of a selection. */
module Versions {
  import opened Decimal

  const U64_MAX: nat := 0xffff_ffff_ffff_ffff

  // ---- segments

  function TrimLeadingV(s: string): string {
    if s != "" && s[0] == 'v' then TrimLeadingV(s[1..]) else s
  }

  function Digits(s: string): (r: string)
    ensures |r| <= |s|
  {
    if s != "" && IsDigit(s[0]) then [s[0]] + Digits(s[1..]) else ""
  }

  /** Maximal digit runs in order; a run too large for u64 is left out. */
  function Runs(s: string): seq<nat>
    decreases |s|
  {
    if s == "" then []
    else if IsDigit(s[0]) then
      var run := Digits(s);
      (if Value(run) <= U64_MAX then [Value(run)] else []) + Runs(s[|run|..])
    else Runs(s[1..])
  }

  /** `version_segments`. */
  function Segments(version: string): seq<nat> { Runs(TrimLeadingV(version)) }

  // ---- what a version string says, independently of how it is read

  /** A number and what separates it from the next one. */
  datatype Piece = Piece(digits: string, gap: string)

  predicate NoDigits(s: string) { forall c :: c in s ==> !IsDigit(c) }

  /** Numbers are kept apart; only the last may end the text. */
  predicate Apart(pieces: seq<Piece>) {
    && (forall i :: 0 <= i < |pieces| ==> pieces[i].digits != "" && AllDigits(pieces[i].digits) && NoDigits(pieces[i].gap))
    && (forall i :: 0 <= i < |pieces| - 1 ==> pieces[i].gap != "")
  }

  function Text(pieces: seq<Piece>): string {
    if pieces == [] then "" else pieces[0].digits + pieces[0].gap + Text(pieces[1..])
  }

  /** Their values by place, leaving out those past 64 bits. */
  function Numbers(pieces: seq<Piece>): seq<int> {
    if pieces == [] then []
    else (if ByPlace(pieces[0].digits) < 0x1_0000_0000_0000_0000 then [ByPlace(pieces[0].digits)] else []) + Numbers(pieces[1..])
  }

  lemma {:induction false} SkipGap(gap: string, rest: string)
    requires NoDigits(gap)
    ensures Runs(gap + rest) == Runs(rest)
  {
    if gap == "" {
      assert gap + rest == rest;
    } else {
      assert (gap + rest)[1..] == gap[1..] + rest;
      assert gap[0] in gap;
      SkipGap(gap[1..], rest);
    }
  }

  lemma {:induction false} TakeDigits(digits: string, rest: string)
    requires AllDigits(digits) && (rest == "" || !IsDigit(rest[0]))
    ensures Digits(digits + rest) == digits
  {
    if digits == "" {
      assert digits + rest == rest;
    } else {
      assert (digits + rest)[1..] == digits[1..] + rest;
      assert digits[0] in digits;
      TakeDigits(digits[1..], rest);
      assert digits == [digits[0]] + digits[1..];
    }
  }

  lemma {:induction false} RunsOfText(pieces: seq<Piece>)
    requires Apart(pieces)
    ensures Runs(Text(pieces)) == Numbers(pieces)
    decreases |pieces|
  {
    if pieces != [] {
      var p, tail := pieces[0], Text(pieces[1..]);
      RunsOfText(pieces[1..]);
      SkipGap(p.gap, tail);
      ValueByPlace(p.digits);
      var s := p.digits + (p.gap + tail);
      assert Text(pieces) == s;
      assert p.gap != "" ==> (p.gap + tail)[0] == p.gap[0] && p.gap[0] in p.gap;
      assert p.gap == "" ==> pieces[1..] == [] && p.gap + tail == "";
      TakeDigits(p.digits, p.gap + tail);
      assert s[0] == p.digits[0] && p.digits[0] in p.digits;
      assert s[|p.digits|..] == p.gap + tail;
    }
  }

  lemma {:induction false} TrimDropsNoDigits(s: string)
    ensures Runs(TrimLeadingV(s)) == Runs(s)
  {
    if s != "" && s[0] == 'v' {
      TrimDropsNoDigits(s[1..]);
    }
  }

  /** A version string's segments are its numbers in order; whatever stands
      before, between and after them is ignored. */
  lemma SegmentsExactly(lead: string, pieces: seq<Piece>)
    requires NoDigits(lead) && Apart(pieces)
    ensures Segments(lead + Text(pieces)) == Numbers(pieces)
  {
    TrimDropsNoDigits(lead + Text(pieces));
    SkipGap(lead, Text(pieces));
    RunsOfText(pieces);
  }

  /** Every string is of that form. */
  lemma {:induction false} EveryTextHasPieces(s: string) returns (lead: string, pieces: seq<Piece>)
    ensures NoDigits(lead) && Apart(pieces) && s == lead + Text(pieces)
    decreases |s|
  {
    if s == "" {
      lead, pieces := "", [];
    } else {
      lead, pieces := EveryTextHasPieces(s[1..]);
      assert s == [s[0]] + s[1..];
      if !IsDigit(s[0]) {
        lead := [s[0]] + lead;
      } else if lead != "" || pieces == [] {
        pieces := [Piece([s[0]], lead)] + pieces;
        assert pieces[1..] == pieces[1..];
        lead := "";
      } else {
        var first := Piece([s[0]] + pieces[0].digits, pieces[0].gap);
        assert ([first] + pieces[1..])[1..] == pieces[1..];
        pieces := [first] + pieces[1..];
      }
    }
  }

  // ---- comparison

  datatype Ordering = Less | Equal | Greater

  function SegmentAt(s: seq<nat>, i: nat): nat { if i < |s| then s[i] else 0 }

  function Longer(a: seq<nat>, b: seq<nat>): nat { if |a| > |b| then |a| else |b| }

  /** The first position where the zero-padded lists differ decides. */
  ghost predicate DecidedAt(a: seq<nat>, b: seq<nat>, i: nat) {
    SegmentAt(a, i) != SegmentAt(b, i) && forall j: nat :: j < i ==> SegmentAt(a, j) == SegmentAt(b, j)
  }

  /** `compare_segments`. */
  function Compare(a: seq<nat>, b: seq<nat>): Ordering { CompareFrom(a, b, 0) }

  function CompareFrom(a: seq<nat>, b: seq<nat>, i: nat): Ordering
    decreases Longer(a, b) - i
  {
    if i >= Longer(a, b) then Equal
    else if SegmentAt(a, i) < SegmentAt(b, i) then Less
    else if SegmentAt(a, i) > SegmentAt(b, i) then Greater
    else CompareFrom(a, b, i + 1)
  }

  method CompareSegments(a: seq<nat>, b: seq<nat>) returns (r: Ordering)
    ensures r == Compare(a, b)
    ensures r == Equal <==> forall i: nat :: SegmentAt(a, i) == SegmentAt(b, i)
    ensures r == Less <==> exists i: nat :: DecidedAt(a, b, i) && SegmentAt(a, i) < SegmentAt(b, i)
    ensures r == Greater <==> exists i: nat :: DecidedAt(a, b, i) && SegmentAt(a, i) > SegmentAt(b, i)
  {
    var len := Longer(a, b);
    for i := 0 to len
      invariant forall j: nat :: j < i ==> SegmentAt(a, j) == SegmentAt(b, j)
      invariant Compare(a, b) == CompareFrom(a, b, i)
    {
      var left, right := SegmentAt(a, i), SegmentAt(b, i);
      if left < right {
        DecidedOnce(a, b, i);
        return Less;
      }
      if left > right {
        DecidedOnce(a, b, i);
        return Greater;
      }
    }
    r := Equal;
  }

  lemma DecidedOnce(a: seq<nat>, b: seq<nat>, i: nat)
    requires DecidedAt(a, b, i)
    ensures forall k: nat :: DecidedAt(a, b, k) ==> k == i
  {
    assert forall k: nat :: k < i ==> SegmentAt(a, k) == SegmentAt(b, k);
    assert SegmentAt(a, i) != SegmentAt(b, i);
  }

  /** A list without its trailing zeros. */
  function Stripped(s: seq<nat>): seq<nat> {
    if s != [] && s[|s| - 1] == 0 then Stripped(s[..|s| - 1]) else s
  }

  /** Lexicographic order, a proper prefix coming first. */
  function Lexicographic(a: seq<nat>, b: seq<nat>): Ordering
    decreases |a|
  {
    if a == [] then if b == [] then Equal else Less
    else if b == [] then Greater
    else if a[0] < b[0] then Less
    else if a[0] > b[0] then Greater
    else Lexicographic(a[1..], b[1..])
  }

  lemma {:induction false} StrippedSame(s: seq<nat>)
    ensures forall i: nat :: SegmentAt(Stripped(s), i) == SegmentAt(s, i)
    ensures Stripped(s) != [] ==> Stripped(s)[|Stripped(s)| - 1] != 0
  {
    if s != [] && s[|s| - 1] == 0 {
      StrippedSame(s[..|s| - 1]);
      assert forall i: nat :: SegmentAt(s[..|s| - 1], i) == SegmentAt(s, i);
    }
  }

  lemma {:induction false} CompareShift(a: seq<nat>, b: seq<nat>, i: nat)
    requires a != [] && b != [] && i > 0
    ensures CompareFrom(a, b, i) == CompareFrom(a[1..], b[1..], i - 1)
    decreases Longer(a, b) - i
  {
    assert SegmentAt(a, i) == SegmentAt(a[1..], i - 1) && SegmentAt(b, i) == SegmentAt(b[1..], i - 1);
    if i < Longer(a, b) && SegmentAt(a, i) == SegmentAt(b, i) {
      CompareShift(a, b, i + 1);
    }
  }

  /** Padded comparison only sees the padded values. */
  lemma {:induction false} CompareCongruent(a: seq<nat>, b: seq<nat>, c: seq<nat>, d: seq<nat>, i: nat)
    requires forall j: nat :: SegmentAt(a, j) == SegmentAt(c, j) && SegmentAt(b, j) == SegmentAt(d, j)
    ensures CompareFrom(a, b, i) == CompareFrom(c, d, i)
    decreases Longer(a, b) + Longer(c, d) - i
  {
    assert SegmentAt(a, i) == SegmentAt(c, i) && SegmentAt(b, i) == SegmentAt(d, i);
    if (i < Longer(a, b) || i < Longer(c, d)) && SegmentAt(a, i) == SegmentAt(b, i) {
      CompareCongruent(a, b, c, d, i + 1);
    }
  }

  lemma {:induction false} TailDecides(a: seq<nat>, i: nat)
    requires i < |a| && a[|a| - 1] != 0
    ensures CompareFrom([], a, i) == Less && CompareFrom(a, [], i) == Greater
    decreases |a| - i
  {
    if a[i] == 0 {
      TailDecides(a, i + 1);
    }
  }

  lemma {:induction false} CompareStripped(a: seq<nat>, b: seq<nat>)
    requires (a != [] ==> a[|a| - 1] != 0) && (b != [] ==> b[|b| - 1] != 0)
    ensures Compare(a, b) == Lexicographic(a, b)
    decreases |a|
  {
    if a == [] && b != [] {
      TailDecides(b, 0);
    } else if a != [] && b == [] {
      TailDecides(a, 0);
    } else if a != [] && b != [] && a[0] == b[0] {
      CompareShift(a, b, 1);
      CompareStripped(a[1..], b[1..]);
    }
  }

  /** The comparison is lexicographic order of the lists without trailing zeros. */
  lemma CompareIsLexicographic(a: seq<nat>, b: seq<nat>)
    ensures Compare(a, b) == Lexicographic(Stripped(a), Stripped(b))
  {
    StrippedSame(a);
    StrippedSame(b);
    CompareCongruent(a, b, Stripped(a), Stripped(b), 0);
    CompareStripped(Stripped(a), Stripped(b));
  }

  function Flip(o: Ordering): Ordering {
    match o case Less => Greater case Equal => Equal case Greater => Less
  }

  lemma {:induction false} LexicographicFlips(a: seq<nat>, b: seq<nat>)
    ensures Lexicographic(b, a) == Flip(Lexicographic(a, b))
    ensures Lexicographic(a, b) == Equal <==> a == b
    decreases |a|
  {
    if a != [] && b != [] {
      LexicographicFlips(a[1..], b[1..]);
      assert a == [a[0]] + a[1..] && b == [b[0]] + b[1..];
    }
  }

  lemma {:induction false} LexicographicTransitive(a: seq<nat>, b: seq<nat>, c: seq<nat>)
    requires Lexicographic(a, b) != Greater && Lexicographic(b, c) != Greater
    ensures Lexicographic(a, c) != Greater
    decreases |a|
  {
    if a != [] && b != [] && c != [] && a[0] == b[0] == c[0] {
      LexicographicTransitive(a[1..], b[1..], c[1..]);
    }
  }

  /** A total preorder whose equivalence is equality up to trailing zeros. */
  lemma CompareIsTotalPreorder(a: seq<nat>, b: seq<nat>, c: seq<nat>)
    ensures Compare(b, a) == Flip(Compare(a, b))
    ensures Compare(a, b) == Equal <==> Stripped(a) == Stripped(b)
    ensures Compare(a, b) != Greater && Compare(b, c) != Greater ==> Compare(a, c) != Greater
  {
    CompareIsLexicographic(a, b);
    CompareIsLexicographic(b, a);
    CompareIsLexicographic(b, c);
    CompareIsLexicographic(a, c);
    LexicographicFlips(Stripped(a), Stripped(b));
    if Compare(a, b) != Greater && Compare(b, c) != Greater {
      LexicographicTransitive(Stripped(a), Stripped(b), Stripped(c));
    }
  }

  // ---- constraints

  /** Unicode's White_Space property, which is what trimming removes. */
  predicate IsSpace(c: char) {
    var code := c as int;
    || 0x9 <= code <= 0xd || code == 0x20 || code == 0x85 || code == 0xa0 || code == 0x1680
    || 0x2000 <= code <= 0x200a || code == 0x2028 || code == 0x2029 || code == 0x202f
    || code == 0x205f || code == 0x3000
  }

  function TrimStart(s: string): string {
    if s != "" && IsSpace(s[0]) then TrimStart(s[1..]) else s
  }

  function TrimEnd(s: string): string {
    if s != "" && IsSpace(s[|s| - 1]) then TrimEnd(s[..|s| - 1]) else s
  }

  function Trim(s: string): string { TrimEnd(TrimStart(s)) }

  datatype Operator = GreaterEqual | LessEqual | GreaterThan | LessThan | Exactly

  function Parse(constraint: string): (Operator, string) {
    var c := Trim(constraint);
    if ">=" <= c then (GreaterEqual, c[2..])
    else if "<=" <= c then (LessEqual, c[2..])
    else if ">" <= c then (GreaterThan, c[1..])
    else if "<" <= c then (LessThan, c[1..])
    else if "=" <= c then (Exactly, c[1..])
    else (Exactly, c)
  }

  function Holds(op: Operator, order: Ordering): bool {
    match op
    case GreaterEqual => order != Less
    case LessEqual => order != Greater
    case GreaterThan => order == Greater
    case LessThan => order == Less
    case Exactly => order == Equal
  }

  /** `satisfies`. */
  function Satisfies(version: string, constraint: string): bool {
    var (op, target) := Parse(constraint);
    Holds(op, Compare(Segments(version), Segments(Trim(target))))
  }

  lemma {:induction false} TrimEndCons(x: char, s: string)
    requires !IsSpace(x)
    ensures TrimEnd([x] + s) == [x] + TrimEnd(s)
    decreases |s|
  {
    if s == "" {
      assert [x] + s == [x];
    } else if IsSpace(s[|s| - 1]) {
      assert ([x] + s)[..|s|] == [x] + s[..|s| - 1];
      TrimEndCons(x, s[..|s| - 1]);
    }
  }

  lemma TrimOperator(x: char, target: string)
    requires !IsSpace(x)
    ensures Trim([x] + target) == [x] + TrimEnd(target)
  {
    TrimEndCons(x, target);
  }

  lemma {:induction false} TrimEndIdempotent(s: string)
    ensures TrimEnd(TrimEnd(s)) == TrimEnd(s)
  {
    if s != "" && IsSpace(s[|s| - 1]) {
      TrimEndIdempotent(s[..|s| - 1]);
    }
  }

  lemma {:induction false} TrimEndHead(s: string)
    ensures TrimEnd(s) != "" ==> s != "" && TrimEnd(s)[0] == s[0]
    ensures s != "" && !IsSpace(s[0]) ==> TrimEnd(s) != ""
  {
    if s != "" && IsSpace(s[|s| - 1]) {
      TrimEndHead(s[..|s| - 1]);
    }
  }

  /** A target as it is written after `<`, `=` or `>`. */
  function Target(target: string): seq<nat> { Segments(Trim(TrimEnd(target))) }

  /** The code points with Unicode's White_Space property. */
  const WHITESPACE: set<int> := {
    0x9, 0xa, 0xb, 0xc, 0xd, 0x20, 0x85, 0xa0, 0x1680, 0x2000, 0x2001, 0x2002, 0x2003, 0x2004, 0x2005, 0x2006, 0x2007,
    0x2008, 0x2009, 0x200a, 0x2028, 0x2029, 0x202f, 0x205f, 0x3000}

  lemma SpaceCodes(c: char)
    ensures IsSpace(c) <==> c as int in WHITESPACE
  {
  }

  ghost predicate AllSpace(s: string) { forall i :: 0 <= i < |s| ==> s[i] as int in WHITESPACE }

  lemma {:induction false} TrimStartDrops(space: string, s: string)
    requires AllSpace(space)
    ensures TrimStart(space + s) == TrimStart(s)
  {
    if space == "" {
      assert space + s == s;
    } else {
      SpaceCodes(space[0]);
      assert (space + s)[1..] == space[1..] + s;
      TrimStartDrops(space[1..], s);
    }
  }

  lemma {:induction false} TrimEndDrops(s: string, space: string)
    requires AllSpace(space)
    ensures TrimEnd(s + space) == TrimEnd(s)
  {
    if space == "" {
      assert s + space == s;
    } else {
      var n := |space| - 1;
      SpaceCodes(space[n]);
      assert (s + space)[..|s + space| - 1] == s + space[..n];
      TrimEndDrops(s, space[..n]);
    }
  }

  lemma {:induction false} TrimStartAll(space: string)
    requires AllSpace(space)
    ensures TrimStart(space) == ""
  {
    if space != "" {
      SpaceCodes(space[0]);
      TrimStartAll(space[1..]);
    }
  }

  /** Trimming the end after the front, with more space behind. */
  lemma {:induction false} TrimStartKeepsEnd(s: string, space: string)
    requires AllSpace(space)
    ensures TrimEnd(TrimStart(s + space)) == TrimEnd(TrimStart(s))
  {
    if s == "" {
      assert s + space == space;
      TrimStartAll(space);
    } else if IsSpace(s[0]) {
      assert (s + space)[1..] == s[1..] + space;
      TrimStartKeepsEnd(s[1..], space);
    } else {
      TrimEndDrops(s, space);
    }
  }

  /** Space around a constraint means nothing. */
  lemma SpaceIsIgnored(version: string, before: string, constraint: string, after: string)
    requires AllSpace(before) && AllSpace(after)
    ensures Satisfies(version, before + constraint + after) == Satisfies(version, constraint)
  {
    hide Trim, Segments, Compare;
    TrimIgnores(before, constraint, after);
  }

  lemma TrimIgnores(before: string, s: string, after: string)
    requires AllSpace(before) && AllSpace(after)
    ensures Trim(before + s + after) == Trim(s)
  {
    hide TrimStart, TrimEnd, AllSpace;
    assert before + s + after == before + (s + after);
    TrimStartDrops(before, s + after);
    TrimStartKeepsEnd(s, after);
  }

  /** A constraint without an operator asks for equality. */
  lemma BareIsEquality(version: string, constraint: string)
    requires constraint != "" ==>
      constraint[0] != '<' && constraint[0] != '=' && constraint[0] != '>' && constraint[0] as int !in WHITESPACE
    ensures Satisfies(version, constraint) <==> Compare(Segments(version), Segments(Trim(TrimEnd(constraint)))) == Equal
  {
    if constraint != "" { SpaceCodes(constraint[0]); }
    TrimEndHead(constraint);
    var c := Trim(constraint);
    assert c == TrimEnd(constraint);
    assert c != "" ==> c[0] == constraint[0];
    hide TrimStart, TrimEnd, Segments, Compare;
  }

  /** A constraint begins with a given operator. */
  lemma Leading(x: char, t: string, first: char)
    ensures [first] <= [x] + t <==> x == first
    ensures [first, '='] <= [x] + t <==> x == first && t != "" && t[0] == '='
    ensures ([x] + t)[1..] == t
  {
    var c := [x] + t;
    assert c[0] == x && c[1..] == t;
    if [first, '='] <= c {
      assert c[0] == first && c[1] == '=';
    }
    if x == first && t != "" && t[0] == '=' {
      assert c[..2] == [first, '='];
    }
  }

  /** How a constraint written as one operator character and a target reads,
      when the target does not itself begin with an equals sign. */
  lemma ParsePlain(x: char, target: string)
    requires x == '<' || x == '=' || x == '>'
    requires target == "" || target[0] != '='
    ensures Parse([x] + target) ==
      (if x == '<' then LessThan else if x == '=' then Exactly else GreaterThan, TrimEnd(target))
  {
    var t := TrimEnd(target);
    TrimEndHead(target);
    TrimOperator(x, target);
    hide Trim;
    Leading(x, t, '>');
    Leading(x, t, '<');
    Leading(x, t, '=');
  }

  /** What the three strict constraints on one target mean, when the target does
      not itself begin with an equals sign. */
  lemma PlainOperators(version: string, target: string)
    requires target == "" || target[0] != '='
    ensures Satisfies(version, "<" + target) <==> Compare(Segments(version), Target(target)) == Less
    ensures Satisfies(version, "=" + target) <==> Compare(Segments(version), Target(target)) == Equal
    ensures Satisfies(version, ">" + target) <==> Compare(Segments(version), Target(target)) == Greater
  {
    hide Parse, Segments, Compare, Trim, TrimEnd;
    ParsePlain('<', target);
    ParsePlain('=', target);
    ParsePlain('>', target);
  }

  predicate ExactlyOne(a: bool, b: bool, c: bool) { (a && !b && !c) || (!a && b && !c) || (!a && !b && c) }

  predicate Trichotomy(version: string, target: string) {
    ExactlyOne(Satisfies(version, "<" + target), Satisfies(version, "=" + target), Satisfies(version, ">" + target))
  }

  /** Below, at or above a target exclude each other for every version exactly
      when the target does not begin with an equals sign, which would merge
      with the operator. */
  lemma TrichotomyExact(target: string)
    ensures (forall version: string :: Trichotomy(version, target)) <==> target == "" || target[0] != '='
  {
    if target == "" || target[0] != '=' {
      forall version: string ensures Trichotomy(version, target) {
        PlainOperators(version, target);
      }
    } else {
      EqualsMerges(target);
      var version := Trim(TrimEnd(target)[1..]);
      assert !Trichotomy(version, target);
    }
  }

  /** An equals sign at the head of the target joins the operator. */
  lemma ParseMerged(x: char, target: string)
    requires (x == '<' || x == '>') && target != "" && target[0] == '='
    ensures TrimEnd(target) != ""
    ensures Parse([x] + target) == (if x == '<' then LessEqual else GreaterEqual, TrimEnd(target)[1..])
  {
    var t := TrimEnd(target);
    TrimEndHead(target);
    TrimOperator(x, target);
    hide Trim;
    Leading(x, t, '>');
    Leading(x, t, '<');
    assert ([x] + t)[2..] == t[1..];
  }

  lemma EqualsMerges(target: string)
    requires target != "" && target[0] == '='
    ensures TrimEnd(target) != ""
    ensures Satisfies(Trim(TrimEnd(target)[1..]), "<" + target) && Satisfies(Trim(TrimEnd(target)[1..]), ">" + target)
  {
    ParseMerged('<', target);
    ParseMerged('>', target);
    var version := Trim(TrimEnd(target)[1..]);
    CompareIsTotalPreorder(Segments(version), Segments(version), Segments(version));
    hide Parse, Segments, Compare, Trim, TrimEnd;
  }

  /** The inclusive operators are the negations of the opposite strict ones. */
  lemma InclusiveOperators(version: string, target: string)
    requires target == "" || target[0] != '='
    ensures Satisfies(version, ">=" + target) <==> !Satisfies(version, "<" + target)
    ensures Satisfies(version, "<=" + target) <==> !Satisfies(version, ">" + target)
  {
    hide Parse, Segments, Compare, Trim, TrimEnd;
    PlainOperators(version, target);
    ParseInclusive('<', target);
    ParseInclusive('>', target);
    assert ['<'] + ("=" + target) == "<=" + target && ['>'] + ("=" + target) == ">=" + target;
  }

  lemma ParseInclusive(x: char, target: string)
    requires x == '<' || x == '>'
    ensures Parse([x] + ("=" + target)) == (if x == '<' then LessEqual else GreaterEqual, TrimEnd(target))
  {
    ParseMerged(x, "=" + target);
    TrimEndCons('=', target);
    hide Parse, TrimEnd;
    assert (['='] + TrimEnd(target))[1..] == TrimEnd(target);
  }
}
