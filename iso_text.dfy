/**
 * The text form of timestamps: ISO 8601 extended complete date-time without
 * a zone designator (`YYYY-MM-DDThh:mm:ss`, ISO 8601:2004 section 4.3.2), as
 * written by the f-string `f"{y:04d}-{m:02d}-{d:02d}T{H:02d}:{M:02d}:{S:02d}"`
 * and read back by the prefix match `(\d+)-(\d+)-(\d+)T(\d+):(\d+):(\d+)`.
 */
module IsoText {
  import opened Wrappers
  import opened Calendar

  /** `\d` in MicroPython's `ure`: an ASCII digit. */
  predicate IsDigit(c: char) {
    '0' <= c <= '9'
  }

  predicate AllDigits(s: string) {
    forall i :: 0 <= i < |s| ==> IsDigit(s[i])
  }

  /** What `\d+` matches: a non-empty run of digits. */
  predicate IsNumeral(s: string) {
    |s| > 0 && AllDigits(s)
  }

  function DigitChar(d: int): (c: char)
    requires 0 <= d < 10
    ensures IsDigit(c)
  {
    (48 + d) as char
  }

  /** Shortest decimal numeral of `n`: no leading zeros. */
  function Digits(n: nat): (s: string)
    ensures IsNumeral(s)
    decreases n
  {
    if n < 10 then [DigitChar(n)] else Digits(n / 10) + [DigitChar(n % 10)]
  }

  /** `int(s)` on a digit string. */
  function Value(s: string): nat
    requires AllDigits(s)
    decreases |s|
  {
    if s == [] then 0 else Value(s[..|s| - 1]) * 10 + (s[|s| - 1] as int - 48)
  }

  function Zeros(k: nat): (s: string)
    ensures |s| == k && AllDigits(s)
  {
    seq(k, _ => '0')
  }

  /** Left-pads `s` with zeros to at least `width` characters. */
  function ZeroPad(s: string, width: int): (r: string)
    ensures |r| >= width && |r| >= |s|
  {
    if |s| >= width then s else Zeros(width - |s|) + s
  }

  /** Python's `format(n, "0{width}d")`: the sign counts towards the width. */
  function FormatInt(n: int, width: int): string {
    if n < 0 then "-" + ZeroPad(Digits(-n), width - 1) else ZeroPad(Digits(n), width)
  }

  /** The six formatted fields of the f-string, in order. */
  function RenderFields(t: Civil): (fs: seq<string>)
    ensures |fs| == 6
  {
    [FormatInt(t.year, 4), FormatInt(t.month, 2), FormatInt(t.day, 2),
     FormatInt(t.hour, 2), FormatInt(t.minute, 2), FormatInt(t.second, 2)]
  }

  /**
   * The timestamp text `get_iso_timestamp` and `iso_add_ms` produce for a
   * tuple: the formatted fields with the f-string's literal `-`, `-`, `T`,
   * `:`, `:` between them.
   */
  function Render(t: Civil): string {
    JoinFields(RenderFields(t), IsoSeparators, "")
  }

  lemma {:induction false} ValueDigits(n: nat)
    ensures Value(Digits(n)) == n
    decreases n
  {
    if n >= 10 {
      var s := Digits(n);
      assert s[..|s| - 1] == Digits(n / 10);
      ValueDigits(n / 10);
    }
  }

  lemma {:induction false} ValueOfZeros(k: nat)
    ensures Value(Zeros(k)) == 0
  {
    if k > 0 {
      assert Zeros(k)[..k - 1] == Zeros(k - 1);
      ValueOfZeros(k - 1);
    }
  }

  /** Leading zeros do not change the value of a numeral. */
  lemma {:induction false} ValueLeadingZeros(k: nat, s: string)
    requires AllDigits(s)
    ensures AllDigits(Zeros(k) + s) && Value(Zeros(k) + s) == Value(s)
    decreases |s|
  {
    var z := Zeros(k) + s;
    if s == [] {
      assert z == Zeros(k);
      ValueOfZeros(k);
    } else {
      assert z[..|z| - 1] == Zeros(k) + s[..|s| - 1];
      ValueLeadingZeros(k, s[..|s| - 1]);
    }
  }

  /** A zero-padded numeral reads back as the number it was written from. */
  lemma ValuePadded(n: nat, width: int)
    ensures IsNumeral(ZeroPad(Digits(n), width))
    ensures Value(ZeroPad(Digits(n), width)) == n
  {
    ValueDigits(n);
    var d := Digits(n);
    if |d| < width {
      ValueLeadingZeros(width - |d|, d);
    }
  }

  /** Length of the run of digits at the start of `s`: what a greedy `\d+` takes. */
  function DigitRun(s: string): (n: nat)
    ensures n <= |s|
    ensures AllDigits(s[..n])
    ensures n < |s| ==> !IsDigit(s[n])
  {
    if s == [] || !IsDigit(s[0]) then 0 else 1 + DigitRun(s[1..])
  }

  /** The separators between the six numerals of a timestamp. */
  const IsoSeparators: string := "--T::"

  /** Numerals `fs` joined by the separators `seps`, followed by `rest`. */
  function JoinFields(fs: seq<string>, seps: string, rest: string): string
    requires |fs| == |seps| + 1
    decreases |seps|
  {
    if seps == [] then fs[0] + rest
    else fs[0] + [seps[0]] + JoinFields(fs[1..], seps[1..], rest)
  }

  /**
   * `s` starts with numerals separated by `seps`, and those are `fs`; the
   * last numeral is a maximal run of digits, so `rest` does not start with one.
   */
  predicate SplitsAs(s: string, seps: string, fs: seq<string>, rest: string) {
    && |fs| == |seps| + 1
    && (forall i :: 0 <= i < |fs| ==> IsNumeral(fs[i]))
    && (rest == [] || !IsDigit(rest[0]))
    && s == JoinFields(fs, seps, rest)
  }

  /** The prefix match: the numerals at the start of `s` and what follows them. */
  function MatchPrefix(s: string, seps: string): (r: Option<(seq<string>, string)>)
    ensures r.Some? ==> |r.value.0| == |seps| + 1
    ensures r.Some? ==> forall i :: 0 <= i < |r.value.0| ==> IsNumeral(r.value.0[i])
    decreases |seps|
  {
    var n := DigitRun(s);
    if n == 0 then None
    else if seps == [] then Some(([s[..n]], s[n..]))
    else if n < |s| && s[n] == seps[0] then
      match MatchPrefix(s[n + 1..], seps[1..])
      case None => None
      case Some(m) => Some(([s[..n]] + m.0, m.1))
    else None
  }

  /** Whatever the prefix match returns is a split of its input. */
  lemma {:induction false} MatchPrefixSound(s: string, seps: string)
    requires MatchPrefix(s, seps).Some?
    ensures var m := MatchPrefix(s, seps).value; SplitsAs(s, seps, m.0, m.1)
    decreases |seps|
  {
    var n := DigitRun(s);
    var m := MatchPrefix(s, seps).value;
    if seps == [] {
      assert s == s[..n] + s[n..];
    } else {
      MatchPrefixSound(s[n + 1..], seps[1..]);
      var m' := MatchPrefix(s[n + 1..], seps[1..]).value;
      assert m.0[1..] == m'.0;
      assert s == s[..n] + [seps[0]] + s[n + 1..];
    }
  }

  /** A digit run followed by a non-digit is exactly the numeral. */
  lemma {:induction false} DigitRunOf(a: string, b: string)
    requires AllDigits(a)
    requires b == [] || !IsDigit(b[0])
    ensures DigitRun(a + b) == |a|
    decreases |a|
  {
    if a != [] {
      assert (a + b)[1..] == a[1..] + b;
      DigitRunOf(a[1..], b);
    }
  }

  /** When the separators are not digits, a split is what the prefix match finds. */
  lemma {:induction false} MatchPrefixComplete(s: string, seps: string, fs: seq<string>, rest: string)
    requires forall i :: 0 <= i < |seps| ==> !IsDigit(seps[i])
    requires SplitsAs(s, seps, fs, rest)
    ensures MatchPrefix(s, seps) == Some((fs, rest))
    decreases |seps|
  {
    if seps == [] {
      assert s == fs[0] + rest && fs == [fs[0]];
      DigitRunOf(fs[0], rest);
      assert s[..|fs[0]|] == fs[0] && s[|fs[0]|..] == rest;
    } else {
      var tail := JoinFields(fs[1..], seps[1..], rest);
      assert s == fs[0] + ([seps[0]] + tail);
      DigitRunOf(fs[0], [seps[0]] + tail);
      var n := |fs[0]|;
      assert s[..n] == fs[0] && s[n] == seps[0] && s[n + 1..] == tail;
      assert SplitsAs(tail, seps[1..], fs[1..], rest) by {
        forall i | 0 <= i < |fs[1..]| ensures IsNumeral(fs[1..][i]) {
          assert fs[1..][i] == fs[i + 1];
        }
      }
      MatchPrefixComplete(tail, seps[1..], fs[1..], rest);
      assert [fs[0]] + fs[1..] == fs;
    }
  }

  /** What `parse_iso` returns when the pattern does not match. */
  const Unparsed: Civil := Civil(0, 0, 0, 0, 0, 0)

  /** `parse_iso`: the six numerals at the start of `s`, or the zero tuple. */
  function ParseIso(s: string): Civil {
    match MatchPrefix(s, IsoSeparators)
    case None => Unparsed
    case Some(m) =>
      Civil(Value(m.0[0]), Value(m.0[1]), Value(m.0[2]), Value(m.0[3]), Value(m.0[4]), Value(m.0[5]))
  }

  /** A string that starts with the pattern parses to the values of its numerals. */
  lemma ParseIsoOnMatch(s: string, fs: seq<string>, rest: string)
    requires SplitsAs(s, IsoSeparators, fs, rest)
    ensures ParseIso(s) == Civil(Value(fs[0]), Value(fs[1]), Value(fs[2]), Value(fs[3]), Value(fs[4]), Value(fs[5]))
  {
    MatchPrefixComplete(s, IsoSeparators, fs, rest);
  }

  /** A string that does not start with the pattern parses to the zero tuple. */
  lemma ParseIsoNoMatch(s: string)
    requires forall fs, rest :: !SplitsAs(s, IsoSeparators, fs, rest)
    ensures ParseIso(s) == Unparsed
  {
    if MatchPrefix(s, IsoSeparators).Some? {
      MatchPrefixSound(s, IsoSeparators);
      assert false;
    }
  }

  /** Text after a join can be moved into the join's tail. */
  lemma {:induction false} JoinFieldsRest(fs: seq<string>, seps: string, rest: string)
    requires |fs| == |seps| + 1
    ensures JoinFields(fs, seps, "") + rest == JoinFields(fs, seps, rest)
    decreases |seps|
  {
    if seps == [] {
      assert fs[0] + "" == fs[0];
    } else {
      JoinFieldsRest(fs[1..], seps[1..], rest);
    }
  }

  /** The first separator of a join sits right after the first numeral. */
  lemma JoinFieldsSplit(fs: seq<string>, seps: string, rest: string)
    requires |fs| == |seps| + 1 && |seps| > 0
    ensures var j, n := JoinFields(fs, seps, rest), |fs[0]|;
      n < |j| && j[n] == seps[0] && j[n + 1..] == JoinFields(fs[1..], seps[1..], rest)
  {
    var j, n := JoinFields(fs, seps, rest), |fs[0]|;
    var tail := JoinFields(fs[1..], seps[1..], rest);
    assert j == fs[0] + [seps[0]] + tail;
    assert j[n + 1..] == tail;
  }

  /** Every rendering has at least the year's digits. */
  lemma RenderNonEmpty(t: Civil)
    ensures Render(t) != ""
  {
    JoinFieldsSplit(RenderFields(t), IsoSeparators, "");
  }

  /** A date-time the renderer writes without a minus sign. */
  predicate NonNegative(t: Civil) {
    t.year >= 0 && t.month >= 0 && t.day >= 0 && t.hour >= 0 && t.minute >= 0 && t.second >= 0
  }

  /**
   * Rendering zero-pads: the text is six numerals, the year at least four
   * digits and every other field at least two, joined by `-`, `-`, `T`, `:`,
   * `:`, and each numeral reads back as its field.
   */
  lemma RenderLayout(t: Civil)
    requires NonNegative(t)
    ensures var fs := RenderFields(t);
      && SplitsAs(Render(t), IsoSeparators, fs, "")
      && |fs[0]| >= 4 && |fs[1]| >= 2 && |fs[2]| >= 2 && |fs[3]| >= 2 && |fs[4]| >= 2 && |fs[5]| >= 2
      && Value(fs[0]) == t.year && Value(fs[1]) == t.month && Value(fs[2]) == t.day
      && Value(fs[3]) == t.hour && Value(fs[4]) == t.minute && Value(fs[5]) == t.second
  {
    var fs := RenderFields(t);
    FieldLayout(t.year, 4);
    FieldLayout(t.month, 2);
    FieldLayout(t.day, 2);
    FieldLayout(t.hour, 2);
    FieldLayout(t.minute, 2);
    FieldLayout(t.second, 2);
    assert forall i :: 0 <= i < |fs| ==> IsNumeral(fs[i]) by {
      forall i | 0 <= i < |fs| ensures IsNumeral(fs[i]) {
        assert i == 0 || i == 1 || i == 2 || i == 3 || i == 4 || i == 5;
      }
    }
  }

  /** A non-negative field renders as a numeral of at least its width that reads back as the field. */
  lemma FieldLayout(n: int, width: int)
    requires n >= 0
    ensures IsNumeral(FormatInt(n, width)) && |FormatInt(n, width)| >= width && Value(FormatInt(n, width)) == n
  {
    ValuePadded(n, width);
  }

  /**
   * Parsing undoes rendering, whatever follows the seconds field as long as
   * it does not start with a digit (a fraction `.123`, a zone `Z`, nothing).
   */
  lemma ParseRender(t: Civil, rest: string)
    requires NonNegative(t)
    requires rest == [] || !IsDigit(rest[0])
    ensures ParseIso(Render(t) + rest) == t
  {
    var fs := RenderFields(t);
    RenderLayout(t);
    JoinFieldsRest(fs, IsoSeparators, rest);
    ParseIsoOnMatch(Render(t) + rest, fs, rest);
  }

  function Pow10(k: nat): nat {
    if k == 0 then 1 else 10 * Pow10(k - 1)
  }

  lemma {:induction false} DigitsWidth(n: nat, k: nat)
    requires k >= 1 && n < Pow10(k)
    ensures |Digits(n)| <= k
    decreases n
  {
    if n >= 10 {
      assert k >= 2;
      DigitsWidth(n / 10, k - 1);
    }
  }

  /** Six numerals of widths 4, 2, 2, 2, 2, 2 joined: nineteen characters, separators at fixed places. */
  lemma JoinFixedWidth(fs: seq<string>)
    requires |fs| == 6
    requires |fs[0]| == 4 && |fs[1]| == 2 && |fs[2]| == 2 && |fs[3]| == 2 && |fs[4]| == 2 && |fs[5]| == 2
    ensures var j := JoinFields(fs, IsoSeparators, "");
      && |j| == 19 && j[4] == '-' && j[7] == '-' && j[10] == 'T' && j[13] == ':' && j[16] == ':'
  {
    var seps := IsoSeparators;
    JoinFieldsSplit(fs, seps, "");
    JoinFieldsSplit(fs[1..], seps[1..], "");
    JoinFieldsSplit(fs[2..], seps[2..], "");
    JoinFieldsSplit(fs[3..], seps[3..], "");
    JoinFieldsSplit(fs[4..], seps[4..], "");
    assert fs[1..][1..] == fs[2..] && fs[2..][1..] == fs[3..] && fs[3..][1..] == fs[4..] && fs[4..][1..] == fs[5..];
    assert seps[1..][1..] == seps[2..] && seps[2..][1..] == seps[3..] && seps[3..][1..] == seps[4..] && seps[4..][1..] == seps[5..];
    assert JoinFields(fs[5..], seps[5..], "") == fs[5];
  }

  /**
   * With a year below 10000 and the other fields below 100 the text has a
   * fixed layout: nineteen characters with the separators at 4, 7, 10, 13
   * and 16 (the digits between them are the numerals of `RenderLayout`).
   */
  lemma RenderFixedWidth(t: Civil)
    requires 0 <= t.year <= 9999
    requires 0 <= t.month <= 99 && 0 <= t.day <= 99
    requires 0 <= t.hour <= 99 && 0 <= t.minute <= 99 && 0 <= t.second <= 99
    ensures |Render(t)| == 19
    ensures Render(t)[4] == '-' && Render(t)[7] == '-' && Render(t)[10] == 'T'
    ensures Render(t)[13] == ':' && Render(t)[16] == ':'
  {
    DigitsWidth(t.year, 4);
    DigitsWidth(t.month, 2);
    DigitsWidth(t.day, 2);
    DigitsWidth(t.hour, 2);
    DigitsWidth(t.minute, 2);
    DigitsWidth(t.second, 2);
    JoinFixedWidth(RenderFields(t));
  }
}
