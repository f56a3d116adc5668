/**
 * The game configuration and its text format: a header line
 * `<alive>:<dead>:<millis>` followed by the grid's rows, one per line.
 * Missing symbols and an unreadable interval fall back to defaults; a
 * header with fewer than three ':'-fields makes the parser panic on an
 * out-of-range field index.
 */
module GameConfig {
  import opened Strings

  const U64_LIMIT: int := 0x1_0000_0000_0000_0000
  newtype u64 = x: int | 0 <= x < 0x1_0000_0000_0000_0000

  datatype Option<T> = None | Some(value: T)

  datatype GameConf = GameConf(alive: char, dead: char, millis: u64, startingValue: seq<string>)

  /** A panic of the parser: field `index` of the header was read, but the header has only `len` fields. */
  datatype Panic = FieldIndexOutOfBounds(index: nat, len: nat)

  datatype Result<T> = Ok(value: T) | Err(panic: Panic)

  const DEFAULT_ALIVE: char := 'X'
  const DEFAULT_DEAD: char := ' '
  const DEFAULT_MILLIS: u64 := 500

  predicate IsDigit(c: char) { '0' <= c <= '9' }

  predicate AllDigits(d: string) { forall k :: 0 <= k < |d| ==> IsDigit(d[k]) }

  function DigitValue(c: char): nat
    requires IsDigit(c)
  {
    c as int - '0' as int
  }

  function Digit(n: nat): (c: char)
    requires n < 10
    ensures IsDigit(c) && DigitValue(c) == n
  {
    ('0' as int + n) as char
  }

  function Pow10(n: nat): (p: nat)
    ensures p >= 1
  {
    if n == 0 then 1 else 10 * Pow10(n - 1)
  }

  /** The number a digit string denotes, most significant digit first. */
  function DecimalValue(d: string): nat
    requires AllDigits(d)
  {
    if d == [] then 0 else DigitValue(d[0]) * Pow10(|d| - 1) + DecimalValue(d[1..])
  }

  /** The digits of an unsigned numeral: everything after an optional leading '+'. */
  function Magnitude(s: string): string
  {
    if |s| > 0 && s[0] == '+' then s[1..] else s
  }

  /** What `u64::from_str` accepts: an optional '+', one or more decimal digits, a value below 2^64. */
  predicate IsU64Numeral(s: string)
  {
    var d := Magnitude(s);
    |d| > 0 && AllDigits(d) && DecimalValue(d) < U64_LIMIT
  }

  /**
   * The digit loop of `u64::from_str`: multiply by ten and add each digit,
   * failing on a non-digit or as soon as the value leaves the 64-bit range.
   */
  function Accumulate(acc: u64, d: string): Option<u64>
    decreases |d|
  {
    if d == [] then Some(acc)
    else if !IsDigit(d[0]) then None
    else
      var next := acc as int * 10 + DigitValue(d[0]);
      if next >= U64_LIMIT then None else Accumulate(next as u64, d[1..])
  }

  /** `str::parse::<u64>`. */
  function ParseU64(s: string): Option<u64>
  {
    var d := Magnitude(s);
    if d == [] then None else Accumulate(0, d)
  }

  lemma Regroup(acc: int, v: int, r: int, p: int)
    ensures acc * (10 * p) + v * p + r == (acc * 10 + v) * p + r
  {
  }

  lemma Grows(x: int, p: int)
    requires x >= 0 && p >= 1
    ensures x * p >= x
  {
  }

  lemma {:induction false} AccumulateValue(acc: u64, d: string)
    ensures Accumulate(acc, d).Some?
        <==> AllDigits(d) && acc as int * Pow10(|d|) + DecimalValue(d) < U64_LIMIT
    ensures Accumulate(acc, d).Some? ==>
              Accumulate(acc, d).value as int == acc as int * Pow10(|d|) + DecimalValue(d)
    decreases |d|
  {
    if d != [] && IsDigit(d[0]) {
      var n := |d| - 1;
      var next := acc as int * 10 + DigitValue(d[0]);
      assert AllDigits(d) <==> AllDigits(d[1..]) by {
        assert forall k :: 0 <= k < n ==> d[1..][k] == d[k + 1];
      }
      if AllDigits(d) {
        assert Pow10(|d|) == 10 * Pow10(n);
        Regroup(acc as int, DigitValue(d[0]), DecimalValue(d[1..]), Pow10(n));
        assert acc as int * Pow10(|d|) + DecimalValue(d) == next * Pow10(n) + DecimalValue(d[1..]);
        Grows(next, Pow10(n));
      }
      if next < U64_LIMIT {
        AccumulateValue(next as u64, d[1..]);
      }
    }
  }

  /** `str::parse::<u64>` succeeds exactly on the numerals it accepts, with their value. */
  lemma ParseU64Meaning(s: string)
    ensures ParseU64(s).Some? <==> IsU64Numeral(s)
    ensures ParseU64(s).Some? ==> ParseU64(s).value as int == DecimalValue(Magnitude(s))
  {
    AccumulateValue(0, Magnitude(s));
  }

  lemma Regroup10(v: int, p: int, r: int, c: int)
    ensures v * (10 * p) + r * 10 + c == (v * p + r) * 10 + c
  {
  }

  lemma {:induction false} DecimalValueAppend(d: string, c: char)
    requires AllDigits(d) && IsDigit(c)
    ensures AllDigits(d + [c]) && DecimalValue(d + [c]) == DecimalValue(d) * 10 + DigitValue(c)
  {
    if d != [] {
      assert (d + [c])[1..] == d[1..] + [c];
      assert (d + [c])[0] == d[0];
      DecimalValueAppend(d[1..], c);
      var n := |d| - 1;
      assert Pow10(n + 1) == 10 * Pow10(n);
      assert DecimalValue(d + [c]) == DigitValue(d[0]) * Pow10(n + 1) + DecimalValue(d[1..] + [c]);
      Regroup10(DigitValue(d[0]), Pow10(n), DecimalValue(d[1..]), DigitValue(c));
    }
  }

  /** The decimal numeral of `n`, as `u64`'s `Display` writes it. */
  function Decimal(n: nat): (d: string)
    ensures |d| > 0 && AllDigits(d) && DecimalValue(d) == n
  {
    if n < 10 then [Digit(n)]
    else
      var d := Decimal(n / 10) + [Digit(n % 10)];
      DecimalValueAppend(Decimal(n / 10), Digit(n % 10));
      d
  }

  /** The first character of a header field, or the default when the field is empty. */
  function FirstOr(field: string, default: char): char
  {
    if field == [] then default else field[0]
  }

  /** `GameConf::new`. */
  function Parse(contents: string): Result<GameConf>
  {
    var lines := Split(contents, '\n');
    var info := Split(lines[0], ':');
    if |info| < 2 then Err(FieldIndexOutOfBounds(1, |info|))
    else if |info| < 3 then Err(FieldIndexOutOfBounds(2, |info|))
    else
      var alive := FirstOr(info[0], DEFAULT_ALIVE);
      var dead := FirstOr(info[1], DEFAULT_DEAD);
      var millis := match ParseU64(info[2]) case Some(v) => v case None => DEFAULT_MILLIS;
      Ok(GameConf(alive, dead, millis, lines[1..]))
  }

  /** The header line: the text before the first "\n". */
  function Header(contents: string): string
  {
    Before(contents, '\n')
  }

  /** The third ':'-field of the header. */
  function MillisField(header: string): string
    requires Count(header, ':') >= 2
  {
    var afterFirst := After(header, ':');
    CountAppend(Before(header, ':') + [':'], afterFirst, ':');
    CountAppend(Before(header, ':'), [':'], ':');
    Before(After(afterFirst, ':'), ':')
  }

  /**
   * Parsing fails exactly when the header holds fewer than two ':', and the
   * panic names the first missing field: index 1 with no ':', index 2 with one.
   */
  lemma ParseFailsIff(contents: string)
    ensures Parse(contents).Err? <==> Count(Header(contents), ':') < 2
    ensures Parse(contents).Err? ==>
              Parse(contents).panic == FieldIndexOutOfBounds(Count(Header(contents), ':') + 1, Count(Header(contents), ':') + 1)
  {
    SplitHead(contents, '\n');
  }

  /** The header is a prefix of the input. */
  lemma HeaderIsPrefix(contents: string)
    ensures contents == Header(contents) + contents[|Header(contents)|..]
  {
  }

  /** The first three ':'-fields of a header that holds at least two ':'. */
  lemma HeaderFields(header: string)
    requires Count(header, ':') >= 2
    ensures ':' in After(header, ':')
    ensures var info := Split(header, ':');
      && |info| >= 3
      && info[0] == Before(header, ':')
      && info[1] == Before(After(header, ':'), ':')
      && info[2] == MillisField(header)
  {
    var rest := After(header, ':');
    CountAppend(Before(header, ':') + [':'], rest, ':');
    CountAppend(Before(header, ':'), [':'], ':');
    SplitHead(header, ':');
    SplitHead(rest, ':');
    SplitHead(After(rest, ':'), ':');
  }

  /** A text holding `sep` starts with the first character of the text before `sep`, unless it starts with `sep`. */
  lemma BeforeStart(s: string, sep: char)
    requires sep in s
    ensures |s| > 0
    ensures Before(s, sep) == [] <==> s[0] == sep
    ensures Before(s, sep) != [] ==> Before(s, sep)[0] == s[0]
  {
  }

  lemma SameFirstIndex(a: string, b: string, c: char)
    requires c in a
    ensures c in a + b && After(a + b, c) == After(a, c) + b
  {
    var i := IndexOf(a, c);
    assert (a + b)[..i] == a[..i];
    assert (a + b)[i] == c;
    assert IndexOf(a + b, c) == i;
    assert (a + b)[i + 1..] == a[i + 1..] + b;
  }

  /** The alive symbol is the first character of the input, or 'X' when the input starts with ':'. */
  lemma ParseAlive(contents: string)
    requires Parse(contents).Ok?
    ensures |contents| > 0
    ensures Parse(contents).value.alive == if contents[0] == ':' then DEFAULT_ALIVE else contents[0]
  {
  }

  /** The dead symbol is the character after the first ':', or ' ' when that character is another ':'. */
  lemma ParseDead(contents: string)
    requires Parse(contents).Ok?
    ensures ':' in contents
    ensures |After(contents, ':')| > 0
    ensures Parse(contents).value.dead == if After(contents, ':')[0] == ':' then DEFAULT_DEAD else After(contents, ':')[0]
  {
    var header := Header(contents);
    ParseFailsIff(contents);
    SplitHead(contents, '\n');
    HeaderFields(header);
    HeaderIsPrefix(contents);
    SameFirstIndex(header, contents[|header|..], ':');
    BeforeStart(After(header, ':'), ':');
  }

  /**
   * The interval is the third header field read as an unsigned 64-bit
   * decimal, and exactly 500 whenever that field is not such a numeral
   * (empty, a non-digit, a value of 2^64 or more).
   */
  lemma ParseMillis(contents: string)
    requires Parse(contents).Ok?
    ensures Count(Header(contents), ':') >= 2
    ensures var field := MillisField(Header(contents));
      Parse(contents).value.millis as int == if IsU64Numeral(field) then DecimalValue(Magnitude(field)) else DEFAULT_MILLIS as int
  {
    var header := Header(contents);
    ParseFailsIff(contents);
    SplitHead(contents, '\n');
    HeaderFields(header);
    ParseU64Meaning(MillisField(header));
  }

  /**
   * The rows are the lines after the header, untrimmed and unvalidated: one
   * per "\n" of the input, and the header joined with them gives the input back.
   */
  lemma ParseRows(contents: string)
    requires Parse(contents).Ok?
    ensures var rows := Parse(contents).value.startingValue;
      && |rows| == Count(contents, '\n')
      && (forall k :: 0 <= k < |rows| ==> '\n' !in rows[k])
      && Join([Header(contents)] + rows, '\n') == contents
  {
    var lines := Split(contents, '\n');
    SplitHead(contents, '\n');
    SplitJoin(contents, '\n');
    assert lines == [Header(contents)] + lines[1..];
  }

  /** Header fields after the third are never read. */
  lemma ParseIgnoresExtraFields(header: string, extra: string, body: string)
    requires Count(header, ':') >= 2
    requires '\n' !in header && '\n' !in extra
    ensures Parse(header + [':'] + extra + ['\n'] + body) == Parse(header + ['\n'] + body)
  {
    var long := header + [':'] + extra;
    assert '\n' !in long;
    assert header + [':'] + extra + ['\n'] + body == long + ['\n'] + body;
    SplitAppend(long, body, '\n');
    SplitAppend(header, body, '\n');
    SplitWithoutSeparator(long, '\n');
    SplitWithoutSeparator(header, '\n');
    SplitAppend(header, extra, ':');
  }

  /** The configuration text that `Parse` reads back as `conf`. */
  function Serialize(conf: GameConf): string
  {
    Join([[conf.alive, ':', conf.dead, ':'] + Decimal(conf.millis as nat)] + conf.startingValue, '\n')
  }

  /** Writing a configuration out and parsing it back gives the same configuration. */
  lemma ParseSerialize(conf: GameConf)
    requires conf.alive !in {':', '\n'} && conf.dead !in {':', '\n'}
    requires forall k :: 0 <= k < |conf.startingValue| ==> '\n' !in conf.startingValue[k]
    ensures Parse(Serialize(conf)) == Ok(conf)
  {
    var digits := Decimal(conf.millis as nat);
    var header := [conf.alive, ':', conf.dead, ':'] + digits;
    assert '\n' !in digits && ':' !in digits by {
      forall k | 0 <= k < |digits| ensures digits[k] != '\n' && digits[k] != ':' {
        assert IsDigit(digits[k]);
      }
    }
    JoinSplit([header] + conf.startingValue, '\n');
    assert header == [conf.alive] + [':'] + ([conf.dead] + [':'] + digits);
    SplitAppend([conf.alive], [conf.dead] + [':'] + digits, ':');
    SplitAppend([conf.dead], digits, ':');
    SplitWithoutSeparator([conf.alive], ':');
    SplitWithoutSeparator([conf.dead], ':');
    SplitWithoutSeparator(digits, ':');
    assert Split(header, ':') == [[conf.alive], [conf.dead], digits];
    assert Magnitude(digits) == digits by { assert IsDigit(digits[0]); }
    ParseU64Meaning(digits);
    assert ([header] + conf.startingValue)[1..] == conf.startingValue;
  }
}
