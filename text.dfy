/** Byte strings and the pieces of text the serialisers are assembled from.
    A `string` here stands for a C++ `std::string`: every char is one byte. */
module Text {

  /** One byte of a C++ string. */
  type Byte = c: char | c as int < 0x100 witness ' '

  /** A C++ `std::string` / `std::string_view`: a sequence of bytes. */
  type Bytes = seq<Byte>

  datatype Option<T> = None | Some(value: T)

  function Min(a: int, b: int): int { if a < b then a else b }

  lemma AppendAssoc<T>(a: seq<T>, b: seq<T>, c: seq<T>)
    ensures (a + b) + c == a + (b + c)
  {
  }

  /** `n` copies of `s` back to back. */
  function Repeat(s: string, n: nat): (r: string)
    ensures r == [] <==> n == 0 || s == []
    decreases n
  {
    if n == 0 then [] else Repeat(s, n - 1) + s
  }

  /** `n` copies of `s` are `n` times as long as `s`. */
  lemma {:induction false} RepeatLength(s: string, n: nat)
    ensures |Repeat(s, n)| == n * |s|
    decreases n
  {
    if n > 0 {
      RepeatLength(s, n - 1);
      assert n * |s| == (n - 1) * |s| + |s|;
    }
  }

  lemma {:induction false} RepeatAvoids(s: string, n: nat, c: char)
    requires c !in s
    ensures c !in Repeat(s, n)
    decreases n
  {
    if n > 0 {
      RepeatAvoids(s, n - 1, c);
    }
  }

  /** The concatenation of a list of strings. */
  function Concat(parts: seq<string>): (r: string)
    decreases |parts|
  {
    if parts == [] then [] else parts[0] + Concat(parts[1..])
  }

  lemma {:induction false} ConcatSnoc(parts: seq<string>, p: string)
    ensures Concat(parts + [p]) == Concat(parts) + p
    decreases |parts|
  {
    if parts == [] {
      assert parts + [p] == [p];
    } else {
      assert (parts + [p])[1..] == parts[1..] + [p];
      ConcatSnoc(parts[1..], p);
    }
  }

  lemma {:induction false} ConcatAppend(a: seq<string>, b: seq<string>)
    ensures Concat(a + b) == Concat(a) + Concat(b)
    decreases |a|
  {
    if a == [] {
      assert a + b == b;
    } else {
      assert (a + b)[1..] == a[1..] + b;
      ConcatAppend(a[1..], b);
    }
  }

  /** Each line followed by a line feed. */
  function Lines(ls: seq<string>): string
    decreases |ls|
  {
    if ls == [] then [] else ls[0] + "\n" + Lines(ls[1..])
  }

  lemma {:induction false} LinesSnoc(ls: seq<string>, l: string)
    ensures Lines(ls + [l]) == Lines(ls) + l + "\n"
    decreases |ls|
  {
    if ls == [] {
      assert ls + [l] == [l];
      assert Lines([l]) == l + "\n" + Lines([]);
    } else {
      assert (ls + [l])[1..] == ls[1..] + [l];
      LinesSnoc(ls[1..], l);
      AppendAssoc(ls[0] + "\n", Lines(ls[1..]), l);
      AppendAssoc(ls[0] + "\n", Lines(ls[1..]) + l, "\n");
      AppendAssoc(ls[0] + "\n" + Lines(ls[1..]), l, "\n");
    }
  }

  /** Writing line `k` after the first `k` lines gives the first `k + 1`. */
  lemma LinesStep(out: string, prev: string, ls: seq<string>, k: nat, piece: string)
    requires k < |ls|
    requires prev == out + Lines(ls[..k])
    requires piece == ls[k] + "\n"
    ensures prev + piece == out + Lines(ls[..k + 1])
  {
    assert ls[..k + 1] == ls[..k] + [ls[k]];
    LinesSnoc(ls[..k], ls[k]);
    AppendAssoc(Lines(ls[..k]), ls[k], "\n");
    AppendAssoc(out, Lines(ls[..k]), piece);
  }

  /** Writing line `k` of `ls` and its line feed onto a stream that holds
      `start` and the lines before it. */
  method EmitLine(out: string, ghost start: string, ghost ls: seq<string>, ghost k: nat, line: string)
    returns (out': string)
    requires k < |ls| && out == start + Lines(ls[..k]) && line == ls[k]
    ensures out' == start + Lines(ls[..k + 1])
  {
    LinesStep(start, out, ls, k, line + "\n");
    out' := out + (line + "\n");
  }

  /** Lines that hold no line feed give one line feed each. */
  lemma {:induction false} LinesCount(ls: seq<string>)
    requires forall k :: 0 <= k < |ls| ==> '\n' !in ls[k]
    ensures CountChar(Lines(ls), '\n') == |ls|
    decreases |ls|
  {
    if ls != [] {
      assert forall k :: 0 <= k < |ls[1..]| ==> '\n' !in ls[1..][k] by {
        forall k | 0 <= k < |ls[1..]| ensures ls[1..][k] == ls[k + 1] { }
      }
      LinesCount(ls[1..]);
      CountCharAppend(ls[0], "\n", '\n');
      CountCharAppend(ls[0] + "\n", Lines(ls[1..]), '\n');
      assert CountChar("\n", '\n') == 1;
    }
  }

  /** The number of occurrences of `c` in `s`. */
  function CountChar(s: string, c: char): (n: nat)
    ensures n <= |s|
    ensures n == 0 <==> c !in s
    decreases |s|
  {
    if s == [] then 0 else (if s[0] == c then 1 else 0) + CountChar(s[1..], c)
  }

  lemma {:induction false} CountCharAppend(a: string, b: string, c: char)
    ensures CountChar(a + b, c) == CountChar(a, c) + CountChar(b, c)
    decreases |a|
  {
    if a == [] {
      assert a + b == b;
    } else {
      assert (a + b)[1..] == a[1..] + b;
      CountCharAppend(a[1..], b, c);
    }
  }

  predicate IsDigit(c: char) { '0' <= c <= '9' }

  function DigitChar(d: int): (c: char)
    requires 0 <= d < 10
    ensures IsDigit(c) && c as int - '0' as int == d
  {
    (d + '0' as int) as char
  }

  /** Decimal digits of `n`, most significant first. */
  function NatToString(n: nat): (r: string)
    ensures |r| > 0
    decreases n
  {
    if n < 10 then [DigitChar(n)] else NatToString(n / 10) + [DigitChar(n % 10)]
  }

  /** Every character of a numeral is a digit, and there is no leading zero. */
  lemma {:induction false} NatToStringDigits(n: nat)
    ensures forall k :: 0 <= k < |NatToString(n)| ==> IsDigit(NatToString(n)[k])
    ensures |NatToString(n)| > 1 ==> NatToString(n)[0] != '0'
    decreases n
  {
    if n >= 10 {
      NatToStringDigits(n / 10);
      var r := NatToString(n);
      assert r == NatToString(n / 10) + [DigitChar(n % 10)];
      assert r[0] == NatToString(n / 10)[0];
      if n / 10 < 10 {
        assert NatToString(n / 10) == [DigitChar(n / 10)];
      } else {
        assert |NatToString(n / 10)| > 1;
      }
    }
  }

  /** `std::to_string` of an `int`, and the decimal form `operator<<` gives it. */
  function IntToString(n: int): (r: string)
    ensures |r| > 0
  {
    if n < 0 then "-" + NatToString(-n) else NatToString(n)
  }

  /** A numeral is digits with a minus sign in front exactly for a negative number. */
  lemma IntToStringDigits(n: int)
    ensures forall k :: 0 <= k < |IntToString(n)| ==> IsDigit(IntToString(n)[k]) || (k == 0 && IntToString(n)[k] == '-')
    ensures IntToString(n)[0] == '-' <==> n < 0
  {
    if n < 0 {
      var d := NatToString(-n);
      var r := "-" + d;
      NatToStringDigits(-n);
      forall k | 0 <= k < |r| ensures IsDigit(r[k]) || (k == 0 && r[k] == '-') {
        if k > 0 {
          assert r[k] == d[k - 1];
        }
      }
    } else {
      NatToStringDigits(n);
    }
  }

  /** The value of a string of decimal digits. */
  function DigitsValue(s: string): nat
    requires forall k :: 0 <= k < |s| ==> IsDigit(s[k])
    decreases |s|
  {
    if s == [] then 0 else
      assert IsDigit(s[|s| - 1]);
      DigitsValue(s[..|s| - 1]) * 10 + (s[|s| - 1] as int - '0' as int)
  }

  /** Reading a decimal numeral back gives the number that was written. */
  lemma {:induction false} NatToStringRoundTrip(n: nat)
    ensures forall k :: 0 <= k < |NatToString(n)| ==> IsDigit(NatToString(n)[k])
    ensures DigitsValue(NatToString(n)) == n
    decreases n
  {
    NatToStringDigits(n);
    if n >= 10 {
      var s := NatToString(n);
      assert s[..|s| - 1] == NatToString(n / 10);
      NatToStringDigits(n / 10);
      NatToStringRoundTrip(n / 10);
    }
  }

  /** A numeral never contains a line break, a quote or a backslash. */
  lemma IntToStringPlain(n: int)
    ensures '\n' !in IntToString(n) && '"' !in IntToString(n) && '\\' !in IntToString(n)
  {
    var r := IntToString(n);
    IntToStringDigits(n);
    forall k | 0 <= k < |r| ensures r[k] != '\n' && r[k] != '"' && r[k] != '\\' {
    }
  }
}
