/**
 * Value wrappers and the small string and path helpers that the rest of the
 * model shares: one-character replacement (Rust's `str::replace` with a char
 * pattern), `PathBuf::join`, `str::lines`, decimal rendering of numbers.
 */
module Common {

  datatype Option<+T> = None | Some(value: T) {
    /** `unwrap_or`: the wrapped value, or `default` when there is none. */
    function GetOr(default: T): T {
      if Some? then value else default
    }
  }

  datatype Result<+T, +E> = Success(value: T) | Failure(error: E)

  datatype Unit = Unit

  /** Every occurrence of `from` in `s` replaced by `to`; nothing else moves. */
  function ReplaceChar(s: string, from: char, to: char): (r: string)
    ensures |r| == |s|
    ensures forall i :: 0 <= i < |s| ==> r[i] == (if s[i] == from then to else s[i])
  {
    if s == [] then [] else [if s[0] == from then to else s[0]] + ReplaceChar(s[1..], from, to)
  }

  /** The first `n` elements of `s`, or all of `s` when it is shorter (`take(n)`). */
  function Take<T>(s: seq<T>, n: nat): (r: seq<T>)
    ensures |r| == if |s| < n then |s| else n
    ensures r <= s
  {
    if |s| < n then s else s[..n]
  }

  /**
   * `PathBuf::join` on a Unix path: an absolute segment replaces the base;
   * otherwise a '/' separates base and segment unless the base is empty or
   * already ends with one.
   */
  function Join(base: string, segment: string): string {
    if |segment| > 0 && segment[0] == '/' then segment
    else if base == [] || base[|base| - 1] == '/' then base + segment
    else base + "/" + segment
  }

  /** Index of the first `c` in `s`, if any. */
  function IndexOf(s: string, c: char): (r: Option<nat>)
    ensures r.None? <==> c !in s
    ensures r.Some? ==> r.value < |s| && s[r.value] == c && c !in s[..r.value]
  {
    if s == [] then None
    else if s[0] == c then Some(0)
    else match IndexOf(s[1..], c)
      case None => None
      case Some(k) => assert s[..k + 1] == [s[0]] + s[1..][..k]; Some(k + 1)
  }

  /** A line with one trailing carriage return removed. */
  function StripCr(line: string): string {
    if |line| > 0 && line[|line| - 1] == '\r' then line[..|line| - 1] else line
  }

  /**
   * Rust's `str::lines`: the text is cut at every '\n'; a "\r\n" ending loses
   * both characters; a final line needs no terminator; an empty text has no
   * lines; a bare '\r' that is not followed by '\n' stays part of the line.
   */
  function Lines(text: string): (r: seq<string>)
    ensures forall i :: 0 <= i < |r| ==> '\n' !in r[i]
    decreases |text|
  {
    if text == [] then []
    else match IndexOf(text, '\n')
      case None => [text]
      case Some(k) => [StripCr(text[..k])] + Lines(text[k + 1..])
  }

  /** Each line followed by '\n', concatenated (what repeated `push_str(l); push('\n')` builds). */
  function Unlines(lines: seq<string>): string {
    if lines == [] then [] else lines[0] + "\n" + Unlines(lines[1..])
  }

  lemma UnlinesAppend(lines: seq<string>, line: string)
    ensures Unlines(lines + [line]) == Unlines(lines) + line + "\n"
  {
    if lines != [] {
      assert (lines + [line])[1..] == lines[1..] + [line];
      UnlinesAppend(lines[1..], line);
    }
  }

  /** A first line without '\n' or a trailing '\r', ended by '\n', comes out as the first line. */
  lemma LinesOfFirstLine(l: string, rest: string)
    requires '\n' !in l && (l == [] || l[|l| - 1] != '\r')
    ensures Lines(l + "\n" + rest) == [l] + Lines(rest)
  {
    var text := l + "\n" + rest;
    assert text[|l|] == '\n';
    assert text[..|l|] == l;
    assert IndexOf(text, '\n') == Some(|l|);
    assert text[|l| + 1..] == rest;
    assert StripCr(l) == l;
  }

  /**
   * `lines()` inverts the '\n'-terminated rendering of lines that hold no
   * '\n' and do not end in '\r'.
   */
  lemma {:induction false} LinesOfUnlines(lines: seq<string>)
    requires forall i :: 0 <= i < |lines| ==> '\n' !in lines[i]
    requires forall i :: 0 <= i < |lines| ==> lines[i] == [] || lines[i][|lines[i]| - 1] != '\r'
    ensures Lines(Unlines(lines)) == lines
  {
    if lines != [] {
      var rest := lines[1..];
      assert Unlines(lines) == lines[0] + "\n" + Unlines(rest);
      LinesOfFirstLine(lines[0], Unlines(rest));
      assert forall i :: 0 <= i < |rest| ==> rest[i] == lines[i + 1];
      LinesOfUnlines(rest);
      assert [lines[0]] + rest == lines;
    }
  }

  function DigitChar(d: nat): (c: char)
    requires d < 10
    ensures '0' <= c <= '9'
  {
    ('0' as int + d) as char
  }

  predicate IsDigit(c: char) {
    '0' <= c <= '9'
  }

  predicate AllDigits(s: string) {
    forall i :: 0 <= i < |s| ==> IsDigit(s[i])
  }

  /** Decimal rendering of a natural number, as `format!("{}", n)` prints it. */
  function NatToString(n: nat): (r: string)
    ensures |r| >= 1 && AllDigits(r)
    ensures r[0] == '0' ==> n == 0 && |r| == 1
  {
    if n < 10 then [DigitChar(n)] else NatToString(n / 10) + [DigitChar(n % 10)]
  }

  /** The number a string of decimal digits denotes (leading zeros allowed). */
  function DecimalValue(s: string): nat
    requires AllDigits(s)
  {
    if s == [] then 0 else DecimalValue(s[..|s| - 1]) * 10 + (s[|s| - 1] as int - '0' as int)
  }

  lemma {:induction false} DecimalOfNatToString(n: nat)
    ensures DecimalValue(NatToString(n)) == n
  {
    if n >= 10 {
      var s := NatToString(n);
      assert s[..|s| - 1] == NatToString(n / 10);
      DecimalOfNatToString(n / 10);
    }
  }

  function Zeros(k: nat): (r: string)
    ensures |r| == k && AllDigits(r)
  {
    if k == 0 then [] else Zeros(k - 1) + "0"
  }

  lemma {:induction false} DecimalIgnoresLeadingZeros(k: nat, s: string)
    requires AllDigits(s)
    ensures AllDigits(Zeros(k) + s)
    ensures DecimalValue(Zeros(k) + s) == DecimalValue(s)
  {
    var t := Zeros(k) + s;
    if s == [] {
      assert t == Zeros(k);
      if k > 0 {
        assert t[..|t| - 1] == Zeros(k - 1);
        DecimalIgnoresLeadingZeros(k - 1, []);
        assert Zeros(k - 1) + [] == Zeros(k - 1);
      }
    } else {
      assert t[..|t| - 1] == Zeros(k) + s[..|s| - 1];
      DecimalIgnoresLeadingZeros(k, s[..|s| - 1]);
    }
  }

  function Pow10(w: nat): (r: nat)
    ensures r >= 1
  {
    if w == 0 then 1 else 10 * Pow10(w - 1)
  }

  lemma {:induction false} NatToStringWidth(n: nat, w: nat)
    requires w >= 1 && n < Pow10(w)
    ensures |NatToString(n)| <= w
  {
    if n >= 10 {
      assert w != 1;
      assert n / 10 < Pow10(w - 1);
      NatToStringWidth(n / 10, w - 1);
    }
  }

  /** `format!("{:0w}", n)`: the decimal rendering, left-padded with zeros to `w` characters. */
  function ZeroPad(n: nat, w: nat): (r: string)
    ensures AllDigits(r)
  {
    var digits := NatToString(n);
    if |digits| >= w then digits else Zeros(w - |digits|) + digits
  }

  /** A padded number below 10^w takes exactly `w` digits and reads back as itself. */
  lemma ZeroPadReadBack(n: nat, w: nat)
    requires w >= 1 && n < Pow10(w)
    ensures |ZeroPad(n, w)| == w
    ensures DecimalValue(ZeroPad(n, w)) == n
  {
    NatToStringWidth(n, w);
    DecimalOfNatToString(n);
    var digits := NatToString(n);
    if |digits| < w {
      DecimalIgnoresLeadingZeros(w - |digits|, digits);
    }
  }
}
