/**
 * Day 2: password policy lines such as `1-3 a: abcde`. The line grammar
 * (a parsing expression grammar: greedy repetition, ordered choice, the
 * whole line consumed), the positional check (exactly one of two 1-based
 * positions holds the policy character) and the count of valid lines.
 */
module Passwords {

  import opened Wrappers

  /** The largest `usize` on a 64-bit target; `str::parse::<usize>` fails above it. */
  const UsizeMax: nat := 0xFFFF_FFFF_FFFF_FFFF

  /** A parsed policy: the range `start..=end` and the character it is about. */
  datatype Policy = Policy(start: nat, end: nat, c: char)

  predicate IsDigit(c: char) {
    '0' <= c <= '9'
  }

  /** The characters of the `__` and `_` rules. */
  predicate IsBlank(c: char) {
    c == ' ' || c == '\t'
  }

  predicate IsWordChar(c: char) {
    !IsBlank(c)
  }

  predicate All(s: string, f: char -> bool) {
    forall i :: 0 <= i < |s| ==> f(s[i])
  }

  /** The length of the longest run at the front of `s` whose characters satisfy `f`: a greedy repetition. */
  function Run(s: string, f: char -> bool): (k: nat)
    ensures k <= |s| && All(s[..k], f)
    ensures k < |s| ==> !f(s[k])
  {
    if s != [] && f(s[0]) then
      var k := 1 + Run(s[1..], f);
      assert forall i :: 1 <= i < k ==> s[..k][i] == s[1..][..k - 1][i - 1];
      k
    else 0
  }

  /** A run followed by a character outside it is taken whole, and no further. */
  lemma {:induction false} RunOf(x: string, y: string, f: char -> bool)
    requires All(x, f) && (y == [] || !f(y[0]))
    ensures Run(x + y, f) == |x|
  {
    if x != [] {
      assert (x + y)[1..] == x[1..] + y;
      RunOf(x[1..], y, f);
    }
  }

  /** `t` is what is left of `s` once some prefix has been read. */
  predicate EndsWith(s: string, t: string) {
    |t| <= |s| && s[|s| - |t|..] == t
  }

  lemma EndsWithTrans(s: string, r: string, t: string)
    requires EndsWith(s, r) && EndsWith(r, t)
    ensures EndsWith(s, t)
  {
    assert s[|s| - |t|..] == s[|s| - |r|..][|r| - |t|..];
  }

  // ---- Integers ----

  function DigitValue(c: char): nat
    requires IsDigit(c)
  {
    (c as int) - ('0' as int)
  }

  function DigitChar(d: nat): (c: char)
    requires d < 10
    ensures IsDigit(c) && DigitValue(c) == d
  {
    (('0' as int) + d) as char
  }

  /** The number a string of decimal digits spells. */
  function Value(ds: string): nat
    requires All(ds, IsDigit)
  {
    if ds == [] then 0 else Value(ds[..|ds| - 1]) * 10 + DigitValue(ds[|ds| - 1])
  }

  /** The decimal spelling of `n`, without leading zeros. */
  function Decimal(n: nat): (ds: string)
    ensures |ds| >= 1 && All(ds, IsDigit)
  {
    if n < 10 then [DigitChar(n)] else Decimal(n / 10) + [DigitChar(n % 10)]
  }

  /** A spelling the `integer` rule takes: one digit, or several without a leading zero. */
  predicate Canonical(ds: string) {
    |ds| >= 1 && All(ds, IsDigit) && (|ds| == 1 || ds[0] != '0')
  }

  lemma {:induction false} DecimalCanonical(n: nat)
    ensures Canonical(Decimal(n))
    ensures n >= 10 ==> |Decimal(n)| >= 2
  {
    if n >= 10 {
      DecimalCanonical(n / 10);
      assert Decimal(n)[0] == Decimal(n / 10)[0];
    }
  }

  /** Reading back a decimal spelling gives the number. */
  lemma {:induction false} ValueOfDecimal(n: nat)
    ensures Value(Decimal(n)) == n
  {
    if n >= 10 {
      ValueOfDecimal(n / 10);
      assert Decimal(n)[..|Decimal(n)| - 1] == Decimal(n / 10);
    }
  }

  /** Several digits that do not start with zero spell at least ten. */
  lemma {:induction false} ValueAtLeast(ds: string)
    requires Canonical(ds)
    ensures |ds| >= 2 ==> Value(ds) >= 10
    ensures ds[0] != '0' ==> Value(ds) >= 1
  {
    if |ds| >= 2 {
      var init := ds[..|ds| - 1];
      assert init[0] == ds[0];
      ValueAtLeast(init);
    }
  }

  /** Every canonical spelling is the decimal spelling of its value. */
  lemma {:induction false} DecimalOfValue(ds: string)
    requires Canonical(ds)
    ensures Decimal(Value(ds)) == ds
  {
    if |ds| >= 2 {
      var init := ds[..|ds| - 1];
      assert init[0] == ds[0];
      ValueAtLeast(init);
      DecimalOfValue(init);
      var v := Value(ds);
      assert v / 10 == Value(init) && v % 10 == DigitValue(ds[|ds| - 1]);
      assert DigitChar(v % 10) == ds[|ds| - 1];
      assert ds == init + [ds[|ds| - 1]];
    } else {
      assert DigitChar(DigitValue(ds[0])) == ds[0];
    }
  }

  /**
   * The `integer` rule on the front of `s`: a digit 1-9 and one or more
   * digits, taken greedily, or else a single digit; the value must fit a
   * `usize`. Returns the value and the rest of the input.
   */
  function Integer(s: string): (r: Option<(nat, string)>)
    ensures (s == [] || !IsDigit(s[0])) ==> r.None?
    ensures r.Some? ==> r.value.0 <= UsizeMax && |r.value.1| < |s| && EndsWith(s, r.value.1)
    ensures r.Some? && s[0] != '0' ==> r.value.1 == [] || !IsDigit(r.value.1[0])
  {
    if |s| >= 2 && '1' <= s[0] <= '9' && IsDigit(s[1]) then
      var k := 1 + Run(s[1..], IsDigit);
      assert s[..k] == [s[0]] + s[1..][..k - 1];
      var n := Value(s[..k]);
      if n <= UsizeMax then Some((n, s[k..])) else None
    else if |s| >= 1 && IsDigit(s[0]) then Some((DigitValue(s[0]), s[1..]))
    else None
  }

  /** Several digits before a non-digit: where the `integer` rule's first branch stops. */
  lemma ManySpan(ds: string, rest: string)
    requires Canonical(ds) && |ds| >= 2 && (rest == [] || !IsDigit(rest[0]))
    ensures |ds + rest| >= 2 && '1' <= (ds + rest)[0] <= '9' && IsDigit((ds + rest)[1])
    ensures 1 + Run((ds + rest)[1..], IsDigit) == |ds|
    ensures (ds + rest)[..|ds|] == ds && (ds + rest)[|ds|..] == rest
  {
    var s := ds + rest;
    assert s[1..] == ds[1..] + rest;
    assert All(ds[1..], IsDigit);
    RunOf(ds[1..], rest, IsDigit);
    assert s[0] == ds[0] && s[1] == ds[1];
  }

  /** A spelling of several digits is read greedily up to the first non-digit. */
  lemma IntegerOfMany(ds: string, rest: string)
    requires Canonical(ds) && |ds| >= 2 && Value(ds) <= UsizeMax && (rest == [] || !IsDigit(rest[0]))
    ensures Integer(ds + rest) == Some((Value(ds), rest))
  {
    ManySpan(ds, rest);
  }

  /** The `integer` rule reads back every number a `usize` holds from its decimal spelling. */
  lemma IntegerOfDecimal(n: nat, rest: string)
    requires n <= UsizeMax && (rest == [] || !IsDigit(rest[0]))
    ensures Integer(Decimal(n) + rest) == Some((n, rest))
  {
    var ds := Decimal(n);
    DecimalCanonical(n);
    ValueOfDecimal(n);
    if n >= 10 {
      IntegerOfMany(ds, rest);
    } else {
      var s := ds + rest;
      assert s[0] == ds[0] && s[1..] == rest;
      if |s| >= 2 {
        assert s[1] == rest[0];
      }
      assert DigitValue(ds[0]) == n;
    }
  }

  /** What the `integer` rule accepts is a decimal spelling, with the rest left over. */
  lemma IntegerIsDecimal(s: string)
    requires Integer(s).Some?
    ensures Integer(s).value.0 <= UsizeMax
    ensures s == Decimal(Integer(s).value.0) + Integer(s).value.1
  {
    var (n, rest) := Integer(s).value;
    if |s| >= 2 && '1' <= s[0] <= '9' && IsDigit(s[1]) {
      var k := 1 + Run(s[1..], IsDigit);
      assert s[..k] == [s[0]] + s[1..][..k - 1];
      DecimalOfValue(s[..k]);
      assert s == s[..k] + s[k..];
    } else {
      assert [s[0]] == Decimal(n);
      assert s == [s[0]] + s[1..];
    }
  }

  /** The `integer` rule refuses a leading zero before further digits: `05` reads as `0`, leaving `5`. */
  lemma LeadingZero()
    ensures Integer("05-") == Some((0, "5-"))
  {
  }

  // ---- Lines ----

  /**
   * The `policy` rule: `from "-" to`, one or more blanks, then any single
   * character (never a blank, as the blanks before it are taken greedily).
   * Returns the policy and the rest of the input.
   */
  function ParsePolicy(s: string): (r: Option<(Policy, string)>)
    ensures r.Some? ==> r.value.0.start <= UsizeMax && r.value.0.end <= UsizeMax && !IsBlank(r.value.0.c)
    ensures r.Some? ==> |r.value.1| < |s| && EndsWith(s, r.value.1)
  {
    match Integer(s)
    case None => None
    case Some((from, r1)) =>
      if r1 == [] || r1[0] != '-' then None
      else match Integer(r1[1..])
      case None => None
      case Some((to, r2)) =>
        var k := Run(r2, IsBlank);
        if k == 0 || k == |r2| then None
        else Some((Policy(from, to, r2[k]), r2[k + 1..]))
  }

  /**
   * What `root` reads after the policy: optional blanks, `:`, optional
   * blanks and a non-empty run of non-blank characters, which must end the
   * line. Returns that run, the password.
   */
  function ParseTail(r: string): (pwd: Option<string>)
    ensures pwd.Some? ==> |pwd.value| >= 1 && All(pwd.value, IsWordChar)
    ensures pwd.Some? ==> EndsWith(r, pwd.value)
  {
    var r2 := r[Run(r, IsBlank)..];
    if r2 == [] || r2[0] != ':' then None
    else
      var r3 := r2[1..][Run(r2[1..], IsBlank)..];
      var k := Run(r3, IsWordChar);
      if k == 0 || k != |r3| then None else Some(r3)
  }

  /** The public `root` rule: a policy, then the tail; the policy and the password. */
  function ParseLine(s: string): (r: Option<(Policy, string)>)
    ensures r.Some? ==> r.value.0.start <= UsizeMax && r.value.0.end <= UsizeMax && !IsBlank(r.value.0.c)
    ensures r.Some? ==> |r.value.1| >= 1 && All(r.value.1, IsWordChar)
    ensures r.Some? ==> EndsWith(s, r.value.1)
  {
    match ParsePolicy(s)
    case None => None
    case Some((p, r)) =>
      match ParseTail(r)
      case None => None
      case Some(pwd) =>
        EndsWithTrans(s, r, pwd);
        Some((p, pwd))
  }

  /** The text of a policy followed by `rest`: `start-end`, blanks `b1`, the character. */
  function PolicyLayout(p: Policy, b1: string, rest: string): string {
    Decimal(p.start) + (['-'] + (Decimal(p.end) + (b1 + ([p.c] + rest))))
  }

  /** The text of a tail: blanks `b2`, `:`, blanks `b3`, the password. */
  function TailLayout(b2: string, b3: string, pwd: string): string {
    b2 + ([':'] + (b3 + pwd))
  }

  /** A line laid out from its parts. */
  function Layout(p: Policy, b1: string, b2: string, b3: string, pwd: string): string {
    PolicyLayout(p, b1, TailLayout(b2, b3, pwd))
  }

  predicate PolicyParts(p: Policy, b1: string) {
    p.start <= UsizeMax && p.end <= UsizeMax && !IsBlank(p.c) && |b1| >= 1 && All(b1, IsBlank)
  }

  predicate TailParts(b2: string, b3: string, pwd: string) {
    All(b2, IsBlank) && All(b3, IsBlank) && |pwd| >= 1 && All(pwd, IsWordChar)
  }

  /** The parts of a line the grammar accepts. */
  predicate WellLaid(p: Policy, b1: string, b2: string, b3: string, pwd: string) {
    PolicyParts(p, b1) && TailParts(b2, b3, pwd)
  }

  /** Blanks then a non-blank (or the end): the blanks are skipped exactly. */
  lemma SkipBlanks(b: string, y: string)
    requires All(b, IsBlank) && (y == [] || !IsBlank(y[0]))
    ensures Run(b + y, IsBlank) == |b| && (b + y)[|b|..] == y
  {
    RunOf(b, y, IsBlank);
  }

  lemma AfterBlanks(b: string, c: char, rest: string)
    ensures (b + ([c] + rest))[|b|] == c && (b + ([c] + rest))[|b| + 1..] == rest
  {
    var x := [c] + rest;
    assert (b + x)[|b|..] == x;
    assert (b + x)[|b| + 1..] == (b + x)[|b|..][1..];
    assert x[1..] == rest;
  }

  /** A policy laid out from acceptable parts parses back, leaving the rest. */
  lemma ParsePolicyLayout(p: Policy, b1: string, rest: string)
    requires PolicyParts(p, b1)
    ensures ParsePolicy(PolicyLayout(p, b1, rest)) == Some((p, rest))
  {
    var tail1 := b1 + ([p.c] + rest);
    var r1 := ['-'] + (Decimal(p.end) + tail1);
    IntegerOfDecimal(p.start, r1);
    assert r1[1..] == Decimal(p.end) + tail1;
    IntegerOfDecimal(p.end, tail1);
    SkipBlanks(b1, [p.c] + rest);
    AfterBlanks(b1, p.c, rest);
  }

  /** A tail laid out from acceptable parts parses back to its password. */
  lemma ParseTailLayout(b2: string, b3: string, pwd: string)
    requires TailParts(b2, b3, pwd)
    ensures ParseTail(TailLayout(b2, b3, pwd)) == Some(pwd)
  {
    var tail3 := b3 + pwd;
    SkipBlanks(b2, [':'] + tail3);
    assert ([':'] + tail3)[1..] == tail3;
    SkipBlanks(b3, pwd);
    RunOf(pwd, [], IsWordChar);
    assert pwd + [] == pwd;
  }

  /** Every line laid out from acceptable parts parses back to its policy and password. */
  lemma ParseLayout(p: Policy, b1: string, b2: string, b3: string, pwd: string)
    requires WellLaid(p, b1, b2, b3, pwd)
    ensures ParseLine(Layout(p, b1, b2, b3, pwd)) == Some((p, pwd))
  {
    ParsePolicyLayout(p, b1, TailLayout(b2, b3, pwd));
    ParseTailLayout(b2, b3, pwd);
  }

  lemma SplitAt(s: string, k: nat)
    requires k < |s|
    ensures s == s[..k] + ([s[k]] + s[k + 1..])
  {
  }

  /** What the `policy` rule accepts is laid out from acceptable parts. */
  lemma PolicyShape(s: string) returns (b1: string)
    requires ParsePolicy(s).Some?
    ensures PolicyParts(ParsePolicy(s).value.0, b1)
    ensures s == PolicyLayout(ParsePolicy(s).value.0, b1, ParsePolicy(s).value.1)
  {
    var (from, r1) := Integer(s).value;
    IntegerIsDecimal(s);
    var (to, r2) := Integer(r1[1..]).value;
    IntegerIsDecimal(r1[1..]);
    var k := Run(r2, IsBlank);
    b1 := r2[..k];
    var p, rest := Policy(from, to, r2[k]), r2[k + 1..];
    assert ParsePolicy(s) == Some((p, rest));
    SplitAt(r2, k);
    SplitAt(r1, 0);
    assert r1 == ['-'] + (Decimal(to) + (b1 + ([p.c] + rest)));
  }

  /** What the tail reads is laid out from acceptable parts. */
  lemma TailShape(r: string) returns (b2: string, b3: string)
    requires ParseTail(r).Some?
    ensures TailParts(b2, b3, ParseTail(r).value)
    ensures r == TailLayout(b2, b3, ParseTail(r).value)
  {
    var k2 := Run(r, IsBlank);
    var r2 := r[k2..];
    var k3 := Run(r2[1..], IsBlank);
    var pwd := r2[1..][k3..];
    b2, b3 := r[..k2], r2[1..][..k3];
    assert r2[1..] == b3 + pwd;
    assert r2 == [':'] + r2[1..];
    assert r == b2 + r2;
    assert pwd[..|pwd|] == pwd;
  }

  /** Every line the grammar accepts is laid out from acceptable parts. */
  lemma LineShape(s: string) returns (b1: string, b2: string, b3: string)
    requires ParseLine(s).Some?
    ensures WellLaid(ParseLine(s).value.0, b1, b2, b3, ParseLine(s).value.1)
    ensures s == Layout(ParseLine(s).value.0, b1, b2, b3, ParseLine(s).value.1)
  {
    b1 := PolicyShape(s);
    b2, b3 := TailShape(ParsePolicy(s).value.1);
  }

  // ---- The positional check ----

  /**
   * The filter on `(i, ch)`: `i == start - 1 || i == end - 1`, then
   * `ch == c`. `None` where a `usize` subtraction underflows, which panics;
   * `end - 1` is only reached when `i` is not `start - 1`.
   */
  function Check(p: Policy, i: nat, ch: char): (v: Option<bool>)
    ensures v.Some? <==> p.start >= 1 && (i + 1 == p.start || p.end >= 1)
    ensures v.Some? ==> (v.value <==> (i + 1 == p.start || i + 1 == p.end) && ch == p.c)
  {
    if p.start == 0 then None
    else if i == p.start - 1 then Some(ch == p.c)
    else if p.end == 0 then None
    else Some(i == p.end - 1 && ch == p.c)
  }

  /** `enumerate().filter(..).count()` over the password's characters; `None` if the filter panics. */
  function Occurrences(pwd: string, p: Policy): (k: Option<nat>)
    ensures k.Some? ==> k.value <= |pwd|
    ensures p.start >= 1 && p.end >= 1 ==> k.Some?
    ensures k.Some? && k.value >= 1 ==> exists i :: 0 <= i < |pwd| && pwd[i] == p.c
  {
    if pwd == [] then Some(0)
    else
      assert forall i :: 0 <= i < |pwd| - 1 ==> pwd[..|pwd| - 1][i] == pwd[i];
      match Occurrences(pwd[..|pwd| - 1], p)
      case None => None
      case Some(k) =>
        match Check(p, |pwd| - 1, pwd[|pwd| - 1])
        case None => None
        case Some(b) => Some(if b then k + 1 else k)
  }

  /** The password is valid when the count is exactly one. */
  function IsValid(p: Policy, pwd: string): (v: Option<bool>)
    ensures p.start >= 1 && p.end >= 1 ==> v.Some?
    ensures v == Some(true) ==> exists i :: 0 <= i < |pwd| && pwd[i] == p.c
  {
    match Occurrences(pwd, p)
    case None => None
    case Some(k) => Some(k == 1)
  }

  /** 1 if the 0-based position `i` exists and holds `c`; positions past the end hold nothing. */
  function Holds(pwd: string, i: nat, c: char): nat {
    if i < |pwd| && pwd[i] == c then 1 else 0
  }

  /** With both bounds at least 1, the count is the matches at the two positions, counted once when they coincide. */
  lemma {:induction false} Positional(pwd: string, p: Policy)
    requires p.start >= 1 && p.end >= 1
    ensures Occurrences(pwd, p)
         == Some(Holds(pwd, p.start - 1, p.c) + (if p.end != p.start then Holds(pwd, p.end - 1, p.c) else 0))
  {
    if pwd != [] {
      var init := pwd[..|pwd| - 1];
      Positional(init, p);
      assert forall i :: 0 <= i < |init| ==> init[i] == pwd[i];
    }
  }

  /** For distinct positions: valid exactly when one of the two holds the character and the other does not. */
  lemma ExactlyOne(pwd: string, p: Policy)
    requires p.start >= 1 && p.end >= 1 && p.start != p.end
    ensures IsValid(p, pwd) == Some((Holds(pwd, p.start - 1, p.c) == 1) != (Holds(pwd, p.end - 1, p.c) == 1))
  {
    Positional(pwd, p);
  }

  /** For one position given twice: valid exactly when it holds the character. */
  lemma SamePosition(pwd: string, p: Policy)
    requires p.start >= 1 && p.start == p.end
    ensures IsValid(p, pwd) == Some(Holds(pwd, p.start - 1, p.c) == 1)
  {
    Positional(pwd, p);
  }

  /** The count panics exactly when the filter panics on some character. */
  lemma {:induction false} OccurrencesPanic(pwd: string, p: Policy)
    ensures Occurrences(pwd, p).None? <==> exists i :: 0 <= i < |pwd| && Check(p, i, pwd[i]).None?
  {
    if pwd != [] {
      var init := pwd[..|pwd| - 1];
      OccurrencesPanic(init, p);
      assert forall i :: 0 <= i < |init| ==> init[i] == pwd[i];
    }
  }

  /**
   * When the check panics: a bound of 0 underflows on any character for
   * `start`, and for `end` on any character at a position other than
   * `start - 1`.
   */
  lemma Underflow(pwd: string, p: Policy)
    ensures IsValid(p, pwd).None? <==>
              |pwd| >= 1 && (p.start == 0 || (p.end == 0 && (|pwd| >= 2 || p.start != 1)))
  {
    OccurrencesPanic(pwd, p);
    if |pwd| >= 1 && p.start == 0 {
      assert Check(p, 0, pwd[0]).None?;
    } else if |pwd| >= 1 && p.end == 0 && p.start >= 1 && (|pwd| >= 2 || p.start != 1) {
      var i := if p.start == 1 then 1 else 0;
      assert Check(p, i, pwd[i]).None?;
    }
  }

  // ---- The count over the input ----

  /** One input line: parsed (`unwrap` panics on a line the grammar refuses) and checked. */
  function Verdict(line: string): (v: Option<bool>)
    ensures ParseLine(line).None? ==> v.None?
    ensures ParseLine(line).Some? && ParseLine(line).value.0.start >= 1 && ParseLine(line).value.0.end >= 1 ==> v.Some?
  {
    match ParseLine(line)
    case None => None
    case Some((p, pwd)) => IsValid(p, pwd)
  }

  /** The verdict on each line in turn. */
  function Verdicts(lines: seq<string>): seq<Option<bool>> {
    seq(|lines|, i requires 0 <= i < |lines| => Verdict(lines[i]))
  }

  /** Verdicts are taken line by line: those of two runs of lines are those of the runs in turn. */
  lemma VerdictsAppend(a: seq<string>, b: seq<string>)
    ensures Verdicts(a + b) == Verdicts(a) + Verdicts(b)
  {
    var l, r := Verdicts(a + b), Verdicts(a) + Verdicts(b);
    assert |l| == |r|;
    forall i | 0 <= i < |l| ensures l[i] == r[i] {
      if i < |a| {
        assert (a + b)[i] == a[i];
      } else {
        assert (a + b)[i] == b[i - |a|];
      }
    }
  }

  /** The number of valid lines among the verdicts; `None` from the first line that panics. */
  function Tally(vs: seq<Option<bool>>): Option<nat> {
    if vs == [] then Some(0)
    else match Tally(vs[..|vs| - 1])
      case None => None
      case Some(k) =>
        match vs[|vs| - 1]
        case None => None
        case Some(b) => Some(if b then k + 1 else k)
  }

  /** The count never exceeds the number of lines. */
  lemma {:induction false} TallyBound(vs: seq<Option<bool>>)
    requires Tally(vs).Some?
    ensures Tally(vs).value <= |vs|
  {
    if vs != [] {
      TallyBound(vs[..|vs| - 1]);
    }
  }

  /** The count is missing exactly when some line panics. */
  lemma {:induction false} TallyPanic(vs: seq<Option<bool>>)
    ensures Tally(vs).None? <==> exists i :: 0 <= i < |vs| && vs[i].None?
  {
    if vs != [] {
      var init := vs[..|vs| - 1];
      TallyPanic(init);
      assert forall i :: 0 <= i < |init| ==> init[i] == vs[i];
    }
  }

  /** Once a line panics, the whole run does. */
  lemma {:induction false} TallyStops(vs: seq<Option<bool>>, i: nat)
    requires i <= |vs| && Tally(vs[..i]).None?
    ensures Tally(vs).None?
    decreases |vs| - i
  {
    if i < |vs| {
      assert vs[..i + 1][..i] == vs[..i];
      TallyStops(vs, i + 1);
    } else {
      assert vs[..i] == vs;
    }
  }

  /** One more line that does not panic adds one exactly when it is valid. */
  lemma TallyStep(vs: seq<Option<bool>>, i: nat, k: nat)
    requires i < |vs| && Tally(vs[..i]) == Some(k) && vs[i].Some?
    ensures Tally(vs[..i + 1]) == Some(if vs[i].value then k + 1 else k)
  {
    assert vs[..i + 1][..i] == vs[..i];
  }

  /** `main`: `valid` starts at 0 and goes up by one for each valid line; `None` where a line panics. */
  method CountValid(lines: seq<string>) returns (r: Option<nat>)
    ensures r == Tally(Verdicts(lines))
  {
    ghost var vs := Verdicts(lines);
    var valid := 0;
    var i := 0;
    while i < |lines|
      invariant i <= |lines| && Tally(vs[..i]) == Some(valid)
    {
      var v := Verdict(lines[i]);
      assert v == vs[i];
      if v.None? {
        assert vs[..i + 1][..i] == vs[..i];
        TallyStops(vs, i + 1);
        return None;
      }
      TallyStep(vs, i, valid);
      if v.value {
        valid := valid + 1;
      }
      i := i + 1;
    }
    assert vs[..i] == vs;
    return Some(valid);
  }
}
