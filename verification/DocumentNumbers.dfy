/**
 Document numbers: a counter row per document kind and sequence year, and the string made of
 it. The two database dialects keep different values in the row.
 */
module DocumentNumbers {
  type Kind = string

  /** The parts of the invoicing configuration that shape a number; they may change between two calls. */
  datatype Config = Config(prefix: string, padding: int, yearlyReset: bool)

  datatype Key = Key(kind: Kind, year: int)

  /** A run of allocations, one after another; `year` is the UTC year of the call. */
  datatype Run = Start | Allocate(past: Run, kind: Kind, cfg: Config, year: nat)

  function KeyOf(r: Run): Key
    requires r.Allocate?
  {
    Key(r.kind, if r.cfg.yearlyReset then r.year else 0)
  }

  /** How many numbers a sequence has given out. */
  function Count(r: Run, key: Key): nat {
    if r.Start? then 0 else if KeyOf(r) == key then Count(r.past, key) + 1 else Count(r.past, key)
  }

  // ---------- strings ----------

  function Digit(d: nat): char
    requires d < 10
  {
    '0' + d as char
  }

  /** String(n). */
  function Decimal(n: nat): (s: string)
    ensures s != []
    ensures forall k :: 0 <= k < |s| ==> '0' <= s[k] <= '9'
    ensures |s| > 1 ==> s[0] != '0'
    ensures n > 0 ==> s[0] != '0'
  {
    if n < 10 then [Digit(n)] else Decimal(n / 10) + [Digit(n % 10)]
  }

  /** padStart(width, "0"): zeros in front, up to the width and no further. */
  function PadStart(s: string, width: int): (p: string)
    ensures |p| == if |s| < width then width else |s|
    decreases width - |s|
  {
    if width <= |s| then s else PadStart(['0'] + s, width)
  }

  lemma {:induction false} PaddingIsZeros(s: string, width: int)
    ensures var p := PadStart(s, width);
      p[|p| - |s|..] == s && forall k :: 0 <= k < |p| - |s| ==> p[k] == '0'
    decreases width - |s|
  {
    if width > |s| {
      PaddingIsZeros(['0'] + s, width);
      var p := PadStart(s, width);
      assert p[|p| - |s| - 1..] == ['0'] + s;
      assert p[|p| - |s| - 1] == p[|p| - |s| - 1..][0];
      assert p[|p| - |s|..] == p[|p| - |s| - 1..][1..];
    }
  }

  function Value(s: string): int {
    if s == [] then 0 else 10 * Value(s[..|s| - 1]) + (s[|s| - 1] as int - '0' as int)
  }

  /** The value is read in base ten, from the left. */
  lemma ValueIsDecimal(s: string, c: char)
    ensures Value([]) == 0 && Value(s + [c]) == 10 * Value(s) + (c as int - '0' as int)
  {
    var t := s + [c];
    assert t[..|t| - 1] == s;
  }

  lemma {:induction false} DecimalHasItsValue(n: nat)
    ensures Value(Decimal(n)) == n
  {
    if n >= 10 {
      DecimalHasItsValue(n / 10);
      var s := Decimal(n);
      assert s[..|s| - 1] == Decimal(n / 10);
    }
  }

  lemma {:induction false} ZerosInFrontAddNothing(zeros: string, s: string)
    requires forall k :: 0 <= k < |zeros| ==> zeros[k] == '0'
    ensures Value(zeros + s) == Value(s)
    decreases |zeros| + |s|
  {
    var t := zeros + s;
    if s != [] {
      assert t[..|t| - 1] == zeros + s[..|s| - 1];
      ZerosInFrontAddNothing(zeros, s[..|s| - 1]);
    } else if zeros != [] {
      assert t == zeros && zeros[..|zeros| - 1] + [] == zeros[..|zeros| - 1];
      ZerosInFrontAddNothing(zeros[..|zeros| - 1], []);
    }
  }

  /** Padding never hides a number, whatever the width. */
  lemma PaddedHasItsValue(n: nat, w: int)
    ensures Value(PadStart(Decimal(n), w)) == n
    ensures '-' !in PadStart(Decimal(n), w)
  {
    var p, s := PadStart(Decimal(n), w), Decimal(n);
    PaddingIsZeros(s, w);
    var zeros := p[..|p| - |s|];
    assert p == zeros + s;
    ZerosInFrontAddNothing(zeros, s);
    DecimalHasItsValue(n);
  }

  /** The part of a number in front of its serial: the prefix, and the year if the sequence restarts yearly. */
  function Head(cfg: Config, year: nat): string {
    if cfg.yearlyReset then cfg.prefix + "-" + Decimal(year) else cfg.prefix
  }

  function Padded(cfg: Config, serial: nat): string {
    PadStart(Decimal(serial), cfg.padding)
  }

  function Format(cfg: Config, year: nat, serial: nat): string {
    Head(cfg, year) + "-" + Padded(cfg, serial)
  }

  function SerialOf(r: Run): nat
    requires r.Allocate?
  {
    Count(r, KeyOf(r))
  }

  /** The number a run's last allocation hands out. */
  function NumberOf(r: Run): string
    requires r.Allocate?
  {
    Format(r.cfg, r.year, SerialOf(r))
  }

  // ---------- what a number looks like ----------

  /** How many numbers of this kind and sequence year a run gave out; without a yearly reset that year is 0. */
  function Given(r: Run, kind: Kind, sequenceYear: nat): nat {
    if r.Start? then 0
    else
      Given(r.past, kind, sequenceYear)
      + if r.kind == kind && sequenceYear == (if r.cfg.yearlyReset then r.year else 0) then 1 else 0
  }

  lemma {:induction false} CountIsExact(r: Run, kind: Kind, sequenceYear: nat)
    ensures Count(r, Key(kind, sequenceYear)) == Given(r, kind, sequenceYear)
  {
    if r.Allocate? {
      CountIsExact(r.past, kind, sequenceYear);
    }
  }

  /** The n-th number of a sequence is number n: one more than were given out before. */
  lemma SerialIsExact(r: Run)
    requires r.Allocate?
    ensures SerialOf(r) == 1 + Given(r.past, r.kind, if r.cfg.yearlyReset then r.year else 0)
  {
    CountIsExact(r, r.kind, if r.cfg.yearlyReset then r.year else 0);
  }

  /** The number starts like this and goes on with digits of this value, at least `padding` of them. */
  ghost predicate IsHeadAndDigits(number: string, head: string, padding: int, serial: nat) {
    && |head| <= |number| && number[..|head|] == head
    && var digits := number[|head|..];
    && (forall k :: 0 <= k < |digits| ==> '0' <= digits[k] <= '9') && Value(digits) == serial
    && |digits| == if |Decimal(serial)| < padding then padding else |Decimal(serial)|
  }

  /** Prefix and dash, for a yearly sequence year and dash, and the padded serial. */
  ghost predicate IsNumber(number: string, cfg: Config, year: nat, serial: nat) {
    var head := if cfg.yearlyReset then cfg.prefix + "-" + Decimal(year) + "-" else cfg.prefix + "-";
    IsHeadAndDigits(number, head, cfg.padding, serial)
  }

  lemma PaddedIsDigits(n: nat, w: int)
    ensures forall k :: 0 <= k < |PadStart(Decimal(n), w)| ==> '0' <= PadStart(Decimal(n), w)[k] <= '9'
  {
    var p, s := PadStart(Decimal(n), w), Decimal(n);
    PaddingIsZeros(s, w);
    var zeros := |p| - |s|;
    forall k | 0 <= k < |p| ensures '0' <= p[k] <= '9' {
      if k >= zeros {
        assert p[k] == p[zeros..][k - zeros] == s[k - zeros];
      }
    }
  }

  lemma DigitsFollowHead(head: string, serial: nat, padding: int)
    ensures IsHeadAndDigits(head + PadStart(Decimal(serial), padding), head, padding, serial)
  {
    var digits := PadStart(Decimal(serial), padding);
    PaddedHasItsValue(serial, padding);
    PaddedIsDigits(serial, padding);
    assert (head + digits)[|head|..] == digits && (head + digits)[..|head|] == head;
  }

  lemma FormatIsExact(cfg: Config, year: nat, serial: nat)
    ensures IsNumber(Format(cfg, year, serial), cfg, year, serial)
  {
    DigitsFollowHead(Head(cfg, year) + "-", serial, cfg.padding);
  }

  // ---------- distinctness ----------

  /** A string splits in one way only at its last dash. */
  lemma LastDashSplits(a: string, b: string, a': string, b': string)
    requires '-' !in b && '-' !in b' && a + "-" + b == a' + "-" + b'
    ensures a == a' && b == b'
  {
    var s := a + "-" + b;
    assert s[|a|] == '-' && s[|a'|] == '-';
    assert s[..|a|] == a && s[..|a'|] == a';
    assert s[|a| + 1..] == b && s[|a'| + 1..] == b';
  }

  /** One number is yearly, the other is not, and the year of the first is the end of the prefix of the second. */
  predicate YearInPrefix(yearly: Config, year: nat, plain: Config) {
    yearly.yearlyReset && !plain.yearlyReset && plain.prefix == yearly.prefix + "-" + Decimal(year)
  }

  /** Same prefix, same yearly mode and, if it counts, same year. */
  predicate SameSeries(cfg: Config, year: nat, cfg': Config, year': nat) {
    && cfg.prefix == cfg'.prefix && cfg.yearlyReset == cfg'.yearlyReset
    && (cfg.yearlyReset ==> year == year')
  }

  predicate SameHead(cfg: Config, year: nat, cfg': Config, year': nat) {
    SameSeries(cfg, year, cfg', year') || YearInPrefix(cfg, year, cfg') || YearInPrefix(cfg', year', cfg)
  }

  lemma DecimalIsInjective(n: nat, m: nat)
    requires Decimal(n) == Decimal(m)
    ensures n == m
  {
    DecimalHasItsValue(n);
    DecimalHasItsValue(m);
  }

  lemma HeadsAgreeIff(cfg: Config, year: nat, cfg': Config, year': nat)
    ensures Head(cfg, year) == Head(cfg', year')
      <==> SameHead(cfg, year, cfg', year')
  {
    assert '-' !in Decimal(year) && '-' !in Decimal(year');
    if cfg.yearlyReset && cfg'.yearlyReset && Head(cfg, year) == Head(cfg', year') {
      LastDashSplits(cfg.prefix, Decimal(year), cfg'.prefix, Decimal(year'));
      DecimalIsInjective(year, year');
    }
  }

  /**
   Two numbers are equal exactly when their padded serials are and either they belong to the same
   series or the prefix of a number without a year ends in the other's prefix, a dash and its year.
   */
  lemma NumbersAreEqualIff(cfg: Config, year: nat, n: nat, cfg': Config, year': nat, m: nat)
    ensures Format(cfg, year, n) == Format(cfg', year', m)
      <==> Padded(cfg, n) == Padded(cfg', m) && SameHead(cfg, year, cfg', year')
  {
    var p, p' := Padded(cfg, n), Padded(cfg', m);
    PaddedHasItsValue(n, cfg.padding);
    PaddedHasItsValue(m, cfg'.padding);
    if Format(cfg, year, n) == Format(cfg', year', m) {
      LastDashSplits(Head(cfg, year), p, Head(cfg', year'), p');
    }
    HeadsAgreeIff(cfg, year, cfg', year');
  }

  /**
   Equal strings with the same prefix come from the same yearly mode, the same year if it counts, and
   the same number.
   */
  lemma FormatIsInjective(cfg: Config, year: nat, n: nat, cfg': Config, year': nat, m: nat)
    requires cfg.prefix == cfg'.prefix && Format(cfg, year, n) == Format(cfg', year', m)
    ensures SameSeries(cfg, year, cfg', year') && n == m
  {
    NumbersAreEqualIff(cfg, year, n, cfg', year', m);
    PaddedHasItsValue(n, cfg.padding);
    PaddedHasItsValue(m, cfg'.padding);
  }

  /** `r` is an allocation made before the last one of `later`. */
  predicate IsEarlier(r: Run, later: Run) {
    later.Allocate? && r.Allocate? && (r == later.past || IsEarlier(r, later.past))
  }

  lemma {:induction false} CountsGrow(r: Run, later: Run, key: Key)
    requires IsEarlier(r, later)
    ensures Count(r, key) <= Count(later.past, key) <= Count(later, key)
  {
    if r != later.past {
      CountsGrow(r, later.past, key);
    }
  }

  predicate YearSpansPrefix(r: Run, later: Run)
    requires r.Allocate? && later.Allocate?
  {
    YearInPrefix(r.cfg, r.year, later.cfg) || YearInPrefix(later.cfg, later.year, r.cfg)
  }

  /**
   Of one kind two numbers of a run are equal exactly when their padded serials are and the year
   of one is the end of the prefix of the other; within a series they always differ.
   */
  lemma RunNumbersAreEqualIff(r: Run, later: Run)
    requires IsEarlier(r, later) && r.kind == later.kind
    ensures NumberOf(r) == NumberOf(later)
      <==> Padded(r.cfg, SerialOf(r)) == Padded(later.cfg, SerialOf(later)) && YearSpansPrefix(r, later)
  {
    var n, m := SerialOf(r), SerialOf(later);
    NumbersAreEqualIff(r.cfg, r.year, n, later.cfg, later.year, m);
    PaddedHasItsValue(n, r.cfg.padding);
    PaddedHasItsValue(m, later.cfg.padding);
    CountsGrow(r, later, KeyOf(r));
  }

  /** All numbers of one kind differ as long as no prefix is another one with a dash and a year. */
  lemma NumbersAreDistinct(r: Run, later: Run)
    requires IsEarlier(r, later) && r.kind == later.kind
    requires !YearSpansPrefix(r, later)
    ensures NumberOf(r) != NumberOf(later)
  {
    RunNumbersAreEqualIff(r, later);
  }

  /** In particular with one prefix, though the padding and the yearly reset change and the year rolls over. */
  lemma OnePrefixNeverCollides(r: Run, later: Run)
    requires IsEarlier(r, later) && r.kind == later.kind && r.cfg.prefix == later.cfg.prefix
    ensures NumberOf(r) != NumberOf(later)
  {
    NumbersAreDistinct(r, later);
  }

  /** A run that changes the prefix so and gives out one number twice, for any prefix and year. */
  lemma ChangedPrefixCanCollide(prefix: string, year: nat, later: nat) returns (first: Run, second: Run)
    requires 0 < year
    ensures IsEarlier(first, second) && first.kind == second.kind && first.cfg.prefix == prefix
    ensures NumberOf(first) == NumberOf(second)
  {
    first := Allocate(Start, "invoice", Config(prefix, 4, true), year);
    second := Allocate(first, "invoice", Config(prefix + "-" + Decimal(year), 4, false), later);
    var k, k' := KeyOf(first), KeyOf(second);
    assert k == Key("invoice", year) && k' == Key("invoice", 0);
    assert Count(first, k) == 1;
    assert Count(second, k') == Count(first, k') + 1 == Count(Start, k') + 1;
    RunNumbersAreEqualIff(first, second);
  }

  // ---------- the rows ----------

  /** The counter rows of both dialects after a run: Postgres stores the next number, MySQL the last one. */
  function PgRows(r: Run): map<Key, nat> {
    if r.Start? then map[]
    else
      var rows, k := PgRows(r.past), KeyOf(r);
      rows[k := if k in rows then rows[k] + 1 else 2]
  }

  function MysqlRows(r: Run): map<Key, nat> {
    if r.Start? then map[]
    else
      var rows, k := MysqlRows(r.past), KeyOf(r);
      rows[k := if k in rows then rows[k] + 1 else 1]
  }

  /** Both dialects count 1, 2, 3, ... without gaps, one sequence per kind and sequence year. */
  lemma {:induction false} DialectsCountTheSame(r: Run, key: Key)
    ensures key in PgRows(r) <==> Count(r, key) > 0
    ensures key in MysqlRows(r) <==> Count(r, key) > 0
    ensures key in PgRows(r) ==> PgRows(r)[key] == Count(r, key) + 1
    ensures key in MysqlRows(r) ==> MysqlRows(r)[key] == Count(r, key)
  {
    if r.Allocate? {
      DialectsCountTheSame(r.past, key);
    }
  }

  class NumberSequences {
    const isMysql: bool
    var rows: map<Key, nat>
    ghost var done: Run

    ghost predicate Valid()
      reads this
    {
      rows == if isMysql then MysqlRows(done) else PgRows(done)
    }

    constructor (isMysql: bool)
      ensures Valid() && done == Start && this.isMysql == isMysql
    {
      this.isMysql, rows, done := isMysql, map[], Start;
    }

    /** Steps the counter row of a key, creating it if need be, and reads the number given out. */
    method NextSerial(kind: Kind, cfg: Config, year: nat) returns (serial: nat)
      requires Valid()
      modifies this
      ensures Valid() && done == Run.Allocate(old(done), kind, cfg, year)
      ensures serial == Count(done, KeyOf(done))
    {
      done := Run.Allocate(done, kind, cfg, year);
      var k := Key(kind, if cfg.yearlyReset then year else 0);
      DialectsCountTheSame(done, k);
      if isMysql {
        rows := rows[k := if k in rows then rows[k] + 1 else 1];
        serial := rows[k];
      } else {
        rows := rows[k := if k in rows then rows[k] + 1 else 2];
        serial := rows[k] - 1;
      }
    }

    method Allocate(kind: Kind, cfg: Config, year: nat) returns (number: string)
      requires Valid()
      modifies this
      ensures Valid() && done == Run.Allocate(old(done), kind, cfg, year)
      ensures number == NumberOf(done)
      ensures IsNumber(number, cfg, year, 1 + Given(old(done), kind, if cfg.yearlyReset then year else 0))
    {
      var serial := NextSerial(kind, cfg, year);
      SerialIsExact(done);
      FormatIsExact(cfg, year, serial);
      number := Render(cfg, year, serial);
    }
  }

  method Render(cfg: Config, year: nat, serial: nat) returns (number: string)
    ensures number == Format(cfg, year, serial)
  {
    var padded := PadStart(Decimal(serial), cfg.padding);
    if cfg.yearlyReset {
      number := cfg.prefix + "-" + Decimal(year) + "-" + padded;
    } else {
      number := cfg.prefix + "-" + padded;
    }
  }
}
