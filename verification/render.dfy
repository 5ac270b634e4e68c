/**
 * The text `Node.toString` builds: the values in brackets, separated by
 * `", "`, each written as `Integer.toString` writes it (decimal digits, with
 * a leading `-` for a negative value).
 */
module Render {

  function DigitChar(k: int): char
    requires 0 <= k < 10
  {
    "0123456789"[k]
  }

  predicate IsDigit(c: char)
  {
    '0' <= c <= '9'
  }

  /** The value of a digit character. */
  function DigitValue(c: char): int
    requires IsDigit(c)
  {
    c as int - '0' as int
  }

  /** Decimal digits of `n`, most significant first, with no leading zero. */
  function NatToString(n: nat): (s: string)
    ensures |s| >= 1 && forall k :: 0 <= k < |s| ==> IsDigit(s[k])
    ensures |s| > 1 ==> s[0] != '0'
    decreases n
  {
    if n < 10 then [DigitChar(n)]
    else NatToString(n / 10) + [DigitChar(n % 10)]
  }

  /** `Integer.toString(i)`. */
  function IntToString(i: int): (s: string)
    ensures |s| >= 1
    ensures s[0] == '-' <==> i < 0
  {
    if i < 0 then "-" + NatToString(-i) else NatToString(i)
  }

  /** The number a string of decimal digits stands for. */
  function DigitsValue(s: string): nat
    requires forall k :: 0 <= k < |s| ==> IsDigit(s[k])
  {
    if s == [] then 0
    else DigitsValue(s[..|s| - 1]) * 10 + DigitValue(s[|s| - 1])
  }

  /** Reading a written number back. */
  function ParseInt(s: string): int
    requires |s| >= 1
    requires s[0] == '-' ==> forall k :: 1 <= k < |s| ==> IsDigit(s[k])
    requires s[0] != '-' ==> forall k :: 0 <= k < |s| ==> IsDigit(s[k])
  {
    if s[0] == '-' then 0 - DigitsValue(s[1..]) as int else DigitsValue(s)
  }

  lemma {:induction false} NatToStringValue(n: nat)
    ensures DigitsValue(NatToString(n)) == n
    decreases n
  {
    if n >= 10 {
      var s := NatToString(n);
      NatToStringValue(n / 10);
      assert s[..|s| - 1] == NatToString(n / 10);
    }
  }

  /** `IntToString` loses nothing: the number can be read back from its text. */
  lemma IntToStringRoundTrip(i: int)
    ensures var s := IntToString(i);
            (s[0] == '-' ==> forall k :: 1 <= k < |s| ==> IsDigit(s[k])) &&
            (s[0] != '-' ==> forall k :: 0 <= k < |s| ==> IsDigit(s[k])) &&
            ParseInt(s) == i
  {
    if i < 0 {
      NatToStringValue(-i);
      assert IntToString(i)[1..] == NatToString(-i);
    } else {
      NatToStringValue(i);
    }
  }

  /** The values written one after the other, separated by `", "`. */
  function Join(vs: seq<int>): string
  {
    if vs == [] then ""
    else if |vs| == 1 then IntToString(vs[0])
    else IntToString(vs[0]) + ", " + Join(vs[1..])
  }

  /** The bracketed list `toString` returns. */
  function Bracketed(vs: seq<int>): (s: string)
    ensures |s| >= 2 && s[0] == '[' && s[|s| - 1] == ']'
    ensures vs == [] <==> s == "[]"
  {
    var s := "[" + Join(vs) + "]";
    assert vs != [] ==> |Join(vs)| >= 1;
    s
  }

  /** Writing one more value in front of a list, behind the text already written. */
  lemma JoinCons(out: string, v: int, rest: seq<int>)
    ensures out + Join([v] + rest) == out + IntToString(v) + (if rest == [] then "" else ", ") + Join(rest)
  {
    var w, head := [v] + rest, IntToString(v);
    assert w[0] == v;
    if rest == [] {
      assert Join(w) == head;
    } else {
      assert w[1..] == rest;
      assert Join(w) == head + ", " + Join(rest);
      assert out + (head + ", " + Join(rest)) == out + head + ", " + Join(rest);
    }
  }

  /** The `", "` that `toString` writes after a value when more follow: joining two non-empty parts puts exactly one separator between them. */
  lemma {:induction false} JoinAppend(u: seq<int>, w: seq<int>)
    requires u != [] && w != []
    ensures Join(u + w) == Join(u) + ", " + Join(w)
    decreases |u|
  {
    if |u| == 1 {
      assert (u + w)[1..] == w;
    } else {
      assert (u + w)[1..] == u[1..] + w;
      JoinAppend(u[1..], w);
    }
  }
}
