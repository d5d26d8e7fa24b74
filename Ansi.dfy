/**
 * A reader for text holding ANSI SGR escape sequences (`ESC [ n m`), the
 * partner of the writers in `Brush` and `Commoner`: `Strip` keeps what a
 * terminal would show, `Decode` lists the numeric parameters of the
 * sequences in order.
 */
module Ansi {
  import opened PyStr

  const Esc: char := '\U{1B}'

  /** `f"\033[{n}m"`. */
  function Sgr(n: int): string {
    [Esc, '['] + IntToDecimal(n) + "m"
  }

  /** Index of the first `c` in `s`, or `|s|`. */
  function IndexOf(s: string, c: char): (r: nat)
    ensures r <= |s|
    ensures r < |s| ==> s[r] == c
    ensures forall k :: 0 <= k < r ==> s[k] != c
  {
    if s == [] then 0 else if s[0] == c then 0 else 1 + IndexOf(s[1..], c)
  }

  /** Length of the escape sequence `ESC [ ... m` at the front of `s`, or 0 when there is none. */
  function EscapeLength(s: string): (r: nat)
    ensures r == 0 || 3 <= r <= |s|
    ensures |s| == 0 || s[0] != Esc ==> r == 0
  {
    if |s| >= 2 && s[0] == Esc && s[1] == '[' then
      var k := IndexOf(s[2..], 'm');
      if k < |s| - 2 then k + 3 else 0
    else 0
  }

  /** The visible text of `s`: everything outside its escape sequences. */
  function Strip(s: string): (r: string)
    ensures |r| <= |s|
    decreases |s|
  {
    if s == [] then []
    else if EscapeLength(s) > 0 then Strip(s[EscapeLength(s)..])
    else [s[0]] + Strip(s[1..])
  }

  /** The numeric parameters of the escape sequences of `s`, in order. */
  function Decode(s: string): seq<int>
    decreases |s|
  {
    if s == [] then []
    else if EscapeLength(s) > 0 then
      var n := EscapeLength(s);
      (match ParseInt(s[2..n - 1]) case Some(v) => [v] case None => []) + Decode(s[n..])
    else Decode(s[1..])
  }

  /** Text that holds no escape character. */
  predicate Plain(s: string) {
    Esc !in s
  }

  lemma DecimalIsPlain(n: int)
    ensures 'm' !in IntToDecimal(n) && Plain(IntToDecimal(n))
  {
    var d := if n < 0 then NatToDecimal(-n) else NatToDecimal(n);
    assert forall i :: 0 <= i < |d| ==> IsDigit(d[i]);
  }

  /** An escape sequence in front of `t` is read as one code and is invisible. */
  lemma SgrFront(n: int, t: string)
    ensures Strip(Sgr(n) + t) == Strip(t)
    ensures Decode(Sgr(n) + t) == [n] + Decode(t)
  {
    var d := IntToDecimal(n);
    var s := Sgr(n) + t;
    DecimalIsPlain(n);
    assert s[2..] == d + "m" + t;
    assert (d + "m" + t)[|d|] == 'm';
    assert forall k :: 0 <= k < |d| ==> (d + "m" + t)[k] == d[k];
    assert IndexOf(s[2..], 'm') == |d|;
    assert EscapeLength(s) == |Sgr(n)|;
    assert s[|Sgr(n)|..] == t;
    assert s[2..|Sgr(n)| - 1] == d;
    IntDecimalRoundTrip(n);
  }

  /** Any escape sequence `ESC [ params m` in front of `t` is invisible. */
  lemma EscapeFront(params: string, t: string)
    requires 'm' !in params
    ensures Strip([Esc, '['] + params + "m" + t) == Strip(t)
  {
    var e := [Esc, '['] + params + "m";
    var s := e + t;
    assert s[2..] == params + "m" + t;
    assert (params + "m" + t)[|params|] == 'm';
    assert forall k :: 0 <= k < |params| ==> (params + "m" + t)[k] == params[k];
    assert IndexOf(s[2..], 'm') == |params|;
    assert EscapeLength(s) == |e|;
    assert s[|e|..] == t;
  }

  /** Plain text in front of `t` is visible as itself and holds no code. */
  lemma {:induction false} PlainFront(p: string, t: string)
    requires Plain(p)
    ensures Strip(p + t) == p + Strip(t)
    ensures Decode(p + t) == Decode(t)
  {
    if p != [] {
      var rest := p[1..] + t;
      assert p[0] in p;
      assert p + t == [p[0]] + rest;
      CharFront(p[0], rest);
      assert Plain(p[1..]) by {
        forall x | x in p[1..] ensures x != Esc {
          assert x in p;
        }
      }
      PlainFront(p[1..], t);
      assert [p[0]] + (p[1..] + Strip(t)) == ([p[0]] + p[1..]) + Strip(t);
      assert [p[0]] + p[1..] == p;
    } else {
      assert p + t == t;
    }
  }

  /** A character other than the escape character is visible and starts no code. */
  lemma CharFront(c: char, t: string)
    requires c != Esc
    ensures Strip([c] + t) == [c] + Strip(t)
    ensures Decode([c] + t) == Decode(t)
  {
    var s := [c] + t;
    assert EscapeLength(s) == 0;
    assert s[1..] == t;
  }
}
