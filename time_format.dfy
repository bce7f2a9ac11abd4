/** `formatTimeRemaining`: the countdown text shown on every auction card,
    and a reader for that text that recovers the remaining whole seconds. */
module TimeFormat {
  import opened Wrappers

  datatype Unit = Days | Hours | Minutes | Seconds

  /** One piece of the countdown, such as `3h`. */
  datatype Part = Part(value: nat, unit: Unit)

  function UnitSeconds(u: Unit): nat
  {
    match u
    case Days => 86400
    case Hours => 3600
    case Minutes => 60
    case Seconds => 1
  }

  /** Position of a unit in the countdown, largest first. */
  function UnitRank(u: Unit): nat
  {
    match u
    case Days => 0
    case Hours => 1
    case Minutes => 2
    case Seconds => 3
  }

  function UnitChar(u: Unit): char
  {
    match u
    case Days => 'd'
    case Hours => 'h'
    case Minutes => 'm'
    case Seconds => 's'
  }

  function UnitOf(c: char): Option<Unit>
  {
    if c == 'd' then Some(Days)
    else if c == 'h' then Some(Hours)
    else if c == 'm' then Some(Minutes)
    else if c == 's' then Some(Seconds)
    else None
  }

  /** The pieces of the countdown for a positive number of milliseconds:
      whole days, then hours, minutes and seconds within the day, by integer
      division; a zero day, hour or minute piece is left out, the seconds
      piece is always there and always last. */
  function TimeParts(ms: int): (parts: seq<Part>)
    requires ms > 0
    ensures parts != [] && parts[|parts| - 1].unit == Seconds
    ensures forall i :: 0 <= i < |parts| - 1 ==> parts[i].value != 0
    ensures forall i, j :: 0 <= i < j < |parts| ==> UnitRank(parts[i].unit) < UnitRank(parts[j].unit)
    ensures forall i :: 0 <= i < |parts| && parts[i].unit != Days ==>
      parts[i].value * UnitSeconds(parts[i].unit) < UnitSeconds(if parts[i].unit == Seconds then Minutes
                                                               else if parts[i].unit == Minutes then Hours
                                                               else Days)
  {
    var s := (ms / 1000) % 60;
    var m := (ms / 60000) % 60;
    var h := (ms / 3600000) % 24;
    var d := ms / 86400000;
    (if d != 0 then [Part(d, Days)] else [])
    + (if h != 0 then [Part(h, Hours)] else [])
    + (if m != 0 then [Part(m, Minutes)] else [])
    + [Part(s, Seconds)]
  }

  /** The number of seconds a list of pieces stands for. */
  function PartsSeconds(parts: seq<Part>): int
  {
    if parts == [] then 0
    else parts[0].value * UnitSeconds(parts[0].unit) + PartsSeconds(parts[1..])
  }

  lemma {:induction false} PartsSecondsAppend(a: seq<Part>, b: seq<Part>)
    ensures PartsSeconds(a + b) == PartsSeconds(a) + PartsSeconds(b)
  {
    if a == [] {
      assert a + b == b;
    } else {
      assert (a + b)[0] == a[0];
      assert (a + b)[1..] == a[1..] + b;
      PartsSecondsAppend(a[1..], b);
    }
  }

  /** Dividing by 1000 and then by the seconds in a minute, an hour or a
      day is one division by the milliseconds in it. */
  lemma NestedDivision(ms: int)
    requires ms >= 0
    ensures ms / 60000 == (ms / 1000) / 60
    ensures ms / 3600000 == (ms / 1000) / 3600
    ensures ms / 86400000 == (ms / 1000) / 86400
  {
  }

  /** A number of seconds is its days, hours, minutes and seconds. */
  lemma ClockBreakdown(t: int)
    requires t >= 0
    ensures t == 86400 * (t / 86400) + 3600 * ((t / 3600) % 24) + 60 * ((t / 60) % 60) + t % 60
  {
    NestedSeconds(t);
  }

  lemma NestedSeconds(t: int)
    requires t >= 0
    ensures t / 60 / 60 == t / 3600 && t / 3600 / 24 == t / 86400
  {
  }

  /** A piece that is left out when zero stands for its value in seconds
      either way. */
  lemma OptionalPieceSeconds(v: nat, u: Unit)
    ensures PartsSeconds(if v != 0 then [Part(v, u)] else []) == v * UnitSeconds(u)
  {
    if v != 0 {
      assert [Part(v, u)][1..] == [];
    }
  }

  /** The seconds of a days, hours, minutes and seconds breakdown in which
      zero days, hours and minutes are left out. */
  lemma BreakdownSeconds(d: nat, h: nat, m: nat, s: nat)
    ensures PartsSeconds((if d != 0 then [Part(d, Days)] else [])
                         + (if h != 0 then [Part(h, Hours)] else [])
                         + (if m != 0 then [Part(m, Minutes)] else [])
                         + [Part(s, Seconds)]) == 86400 * d + 3600 * h + 60 * m + s
  {
    var dp := if d != 0 then [Part(d, Days)] else [];
    var hp := if h != 0 then [Part(h, Hours)] else [];
    var mp := if m != 0 then [Part(m, Minutes)] else [];
    var sp := [Part(s, Seconds)];
    PartsSecondsAppend(dp + hp + mp, sp);
    PartsSecondsAppend(dp + hp, mp);
    PartsSecondsAppend(dp, hp);
    OptionalPieceSeconds(d, Days);
    OptionalPieceSeconds(h, Hours);
    OptionalPieceSeconds(m, Minutes);
    assert sp[1..] == [];
  }

  /** The pieces lose nothing but the milliseconds below one second. */
  lemma TimePartsTotal(ms: int)
    requires ms > 0
    ensures PartsSeconds(TimeParts(ms)) == ms / 1000
  {
    var t := ms / 1000;
    NestedDivision(ms);
    ClockBreakdown(t);
    BreakdownSeconds(t / 86400, (t / 3600) % 24, (t / 60) % 60, t % 60);
  }

  predicate IsDigit(c: char)
  {
    '0' <= c <= '9'
  }

  predicate AllDigits(s: string)
  {
    forall i :: 0 <= i < |s| ==> IsDigit(s[i])
  }

  function DigitChar(n: nat): (c: char)
    requires n < 10
    ensures IsDigit(c)
  {
    ('0' as int + n) as char
  }

  function DigitValue(c: char): nat
    requires IsDigit(c)
  {
    c as int - '0' as int
  }

  /** `String(n)` for a whole number: its decimal digits, no sign, and no
      leading zero. */
  function NatToString(n: nat): (s: string)
    ensures s != [] && AllDigits(s)
    ensures s[0] == '0' <==> n == 0
    ensures |s| > 1 ==> s[0] != '0'
    decreases n
  {
    if n < 10 then [DigitChar(n)] else NatToString(n / 10) + [DigitChar(n % 10)]
  }

  /** The value of a string of decimal digits. */
  function ParseNat(s: string): nat
    requires AllDigits(s)
  {
    if s == [] then 0 else 10 * ParseNat(s[..|s| - 1]) + DigitValue(s[|s| - 1])
  }

  lemma {:induction false} ParseNatToString(n: nat)
    ensures ParseNat(NatToString(n)) == n
    decreases n
  {
    var s := NatToString(n);
    if n < 10 {
      assert s[..0] == [];
    } else {
      ParseNatToString(n / 10);
      assert s[..|s| - 1] == NatToString(n / 10);
    }
  }

  /** The text of one piece: `d + 'd'`, `h + 'h'`, ... */
  function ShowPart(p: Part): string
  {
    NatToString(p.value) + [UnitChar(p.unit)]
  }

  /** `parts.join(' ')`. */
  function Join(parts: seq<Part>): (r: string)
    requires parts != []
    ensures r != [] && r[|r| - 1] == UnitChar(parts[|parts| - 1].unit)
  {
    if |parts| == 1 then ShowPart(parts[0])
    else ShowPart(parts[0]) + " " + Join(parts[1..])
  }

  /** The countdown text for `ms` milliseconds remaining. */
  function FormatTimeRemaining(ms: int): (r: string)
    ensures r == "Ended" <==> ms <= 0
    ensures ms > 0 ==> r != [] && r[|r| - 1] == 's'
  {
    if ms <= 0 then "Ended" else Join(TimeParts(ms))
  }

  // ---- Reading the countdown text back ----

  /** `s.split(' ')`. */
  function Split(s: string): (r: seq<string>)
    ensures |r| >= 1
  {
    if s == [] then [[]]
    else if s[0] == ' ' then [[]] + Split(s[1..])
    else
      var t := Split(s[1..]);
      [[s[0]] + t[0]] + t[1..]
  }

  /** One piece read back from its text: digits followed by a unit letter. */
  function ParsePart(t: string): Option<Part>
  {
    if |t| < 2 then None
    else
      match UnitOf(t[|t| - 1])
      case None => None
      case Some(u) =>
        if AllDigits(t[..|t| - 1]) then Some(Part(ParseNat(t[..|t| - 1]), u)) else None
  }

  function ParseParts(ts: seq<string>): Option<seq<Part>>
  {
    if ts == [] then Some([])
    else
      match (ParsePart(ts[0]), ParseParts(ts[1..]))
      case (Some(p), Some(ps)) => Some([p] + ps)
      case _ => None
  }

  /** The remaining whole seconds a countdown text stands for; `None` for a
      text that is not a list of pieces, such as `Ended`. */
  function ReadTimeRemaining(text: string): Option<int>
  {
    match ParseParts(Split(text))
    case None => None
    case Some(ps) => Some(PartsSeconds(ps))
  }

  lemma {:induction false} SplitPrefix(a: string, b: string)
    requires ' ' !in a
    ensures Split(a + b) == [a + Split(b)[0]] + Split(b)[1..]
    decreases |a|
  {
    if a == [] {
      assert a + b == b;
      assert a + Split(b)[0] == Split(b)[0];
    } else {
      assert (a + b)[0] == a[0] && a[0] != ' ';
      assert (a + b)[1..] == a[1..] + b;
      SplitPrefix(a[1..], b);
      assert [a[0]] + (a[1..] + Split(b)[0]) == a + Split(b)[0];
    }
  }

  lemma ShowPartNoSpace(p: Part)
    ensures ' ' !in ShowPart(p)
  {
    var s := ShowPart(p);
    assert forall i :: 0 <= i < |s| - 1 ==> IsDigit(s[i]);
  }

  lemma ParseShowPart(p: Part)
    ensures ParsePart(ShowPart(p)) == Some(p)
  {
    var t := ShowPart(p);
    assert t[..|t| - 1] == NatToString(p.value);
    ParseNatToString(p.value);
  }

  /** A single piece splits into itself. */
  lemma SplitJoinOne(parts: seq<Part>)
    requires |parts| == 1
    ensures Split(Join(parts)) == [ShowPart(parts[0])]
  {
    var head := ShowPart(parts[0]);
    ShowPartNoSpace(parts[0]);
    SplitPrefix(head, []);
    assert head + [] == head;
  }

  /** Splitting the joined text peels off the first piece's text. */
  lemma SplitJoinCons(parts: seq<Part>)
    requires |parts| > 1
    ensures Split(Join(parts)) == [ShowPart(parts[0])] + Split(Join(parts[1..]))
  {
    var head := ShowPart(parts[0]);
    var rest := Join(parts[1..]);
    ShowPartNoSpace(parts[0]);
    SplitPrefix(head, " " + rest);
    assert (" " + rest)[0] == ' ' && (" " + rest)[1..] == rest;
    assert Split(" " + rest) == [[]] + Split(rest);
    assert Split(" " + rest)[0] == [] && Split(" " + rest)[1..] == Split(rest);
    assert head + [] == head;
    assert head + " " + rest == head + (" " + rest);
  }

  /** Reading the joined pieces back gives the same pieces. */
  lemma {:induction false} ParseJoin(parts: seq<Part>)
    requires parts != []
    ensures ParseParts(Split(Join(parts))) == Some(parts)
    decreases |parts|
  {
    var head := ShowPart(parts[0]);
    ParseShowPart(parts[0]);
    if |parts| == 1 {
      SplitJoinOne(parts);
      assert [head][1..] == [] && [head][0] == head;
      assert ParseParts([head][1..]) == Some([]);
      assert [parts[0]] + [] == parts;
    } else {
      var tail := Split(Join(parts[1..]));
      SplitJoinCons(parts);
      ParseJoin(parts[1..]);
      assert ([head] + tail)[1..] == tail && ([head] + tail)[0] == head;
      assert [parts[0]] + parts[1..] == parts;
    }
  }

  /** The countdown text says "Ended" exactly when no time is left, and
      otherwise determines the remaining time to the whole second. */
  lemma FormatTimeRemainingRoundTrip(ms: int)
    ensures ReadTimeRemaining(FormatTimeRemaining(ms)) == if ms <= 0 then None else Some(ms / 1000)
    ensures FormatTimeRemaining(ms) == "Ended" <==> ms <= 0
  {
    if ms <= 0 {
      var e := "Ended";
      SplitPrefix(e, []);
      assert e + [] == e;
      assert Split(e) == [e];
      assert !IsDigit(e[0]) && e[..|e| - 1][0] == e[0];
      assert ParsePart(e) == None;
    } else {
      ParseJoin(TimeParts(ms));
      TimePartsTotal(ms);
    }
  }
}
