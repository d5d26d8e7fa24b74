/**
 * The top-level `commoner` package: the `Chalk` styling helpers, the
 * generic `reverse` and the repeated `replace_all`.
 */
module Commoner {
  import opened PyStr
  import opened Ansi
  import Types

  // ---------------------------------------------------------------------------
  // Chalk
  // ---------------------------------------------------------------------------

  /** The eleven styles `Chalk` has a wrapper for. */
  datatype ChalkStyle = Bold | Italic | Underline | Red | Yellow | Green | Cyan | Blue | Magenta | White | Black

  /** The parameters of the code a style opens with; the colours reset first (`0;`). */
  function Params(style: ChalkStyle): string {
    match style
    case Bold => "1"
    case Italic => "3"
    case Underline => "4"
    case Red => "0;31"
    case Yellow => "0;33"
    case Green => "0;32"
    case Cyan => "0;36"
    case Blue => "0;34"
    case Magenta => "0;35"
    case White => "0;37"
    case Black => "0;30"
  }

  /** The escape sequence a style opens with. */
  function Opening(style: ChalkStyle): string {
    [Esc, '['] + Params(style) + "m"
  }

  /** `"\033[0m"`, which ends every wrapper's text and which `Chalk.reset()` writes. */
  const Close: string := [Esc, '[', '0', 'm']

  /** The name of the static method that wraps text in `style`. */
  function WrapperName(style: ChalkStyle): string {
    match style
    case Bold => "bold"
    case Italic => "italic"
    case Underline => "underline"
    case Red => "red"
    case Yellow => "yellow"
    case Green => "green"
    case Cyan => "cyan"
    case Blue => "blue"
    case Magenta => "magenta"
    case White => "white"
    case Black => "black"
  }

  /** `Chalk.bold(text)`, `Chalk.red(text)`, ...: the text between the style's code and the reset code. */
  function ChalkStyled(style: ChalkStyle, text: string): string {
    Opening(style) + text + Close
  }

  lemma ParamsHaveNoM(style: ChalkStyle)
    ensures 'm' !in Params(style) && 'm' !in "0"
  {
  }

  /** The reset code is `ESC [ 0 m`: invisible, and read as the code 0. */
  lemma CloseIsReset(t: string)
    ensures Close == Sgr(0)
    ensures Strip(Close + t) == Strip(t)
    ensures Decode(Close + t) == [0] + Decode(t)
  {
    assert IntToDecimal(0) == "0";
    SgrFront(0, t);
  }

  /** A wrapped plain text shows exactly that text, whatever the style. */
  lemma ChalkStyledShows(style: ChalkStyle, text: string)
    requires Plain(text)
    ensures Strip(ChalkStyled(style, text)) == text
  {
    ParamsHaveNoM(style);
    assert ChalkStyled(style, text) == [Esc, '['] + Params(style) + "m" + (text + Close);
    EscapeFront(Params(style), text + Close);
    PlainFront(text, Close);
    CloseIsReset([]);
    assert Close + [] == Close;
    assert Strip([]) == [];
  }

  /** Wrapping in the same style keeps texts apart. */
  lemma ChalkStyledInjective(style: ChalkStyle, a: string, b: string)
    requires ChalkStyled(style, a) == ChalkStyled(style, b)
    ensures a == b
  {
    var n := |Opening(style)|;
    assert |a| == |b|;
    assert ChalkStyled(style, a)[n..n + |a|] == a;
    assert ChalkStyled(style, b)[n..n + |b|] == b;
  }

  /** The names `Chalk.set` accepts, in the order it tests them. */
  const SetNames: seq<string> := [
    "bold", "b", "italic", "italics", "i", "underline", "underlined", "underl", "ul",
    "black", "white", "red", "green", "yellow", "cyan", "blue", "magenta", "purple"]

  /** The style `Chalk.set(name)` selects, through its chain of tests. */
  function Selected(name: string): Option<ChalkStyle> {
    if name in ["bold", "b"] then Some(Bold)
    else if name in ["italic", "italics", "i"] then Some(Italic)
    else if name in ["underline", "underlined", "underl", "ul"] then Some(Underline)
    else if name in ["black"] then Some(Black)
    else if name in ["white"] then Some(White)
    else if name in ["red"] then Some(Red)
    else if name in ["green"] then Some(Green)
    else if name in ["yellow"] then Some(Yellow)
    else if name in ["cyan"] then Some(Cyan)
    else if name in ["blue"] then Some(Blue)
    else if name in ["magenta", "purple"] then Some(Magenta)
    else None
  }

  /** `Chalk.set(name)`: the code it writes, or the `ValueError` it raises. */
  function ChalkSet(name: string): Result<string> {
    match Selected(name)
    case Some(style) => Ok(Opening(style))
    case None => Err(ValueError)
  }

  /** `Chalk.set` accepts exactly its listed names and rejects the rest with `ValueError`. */
  lemma ChalkSetAccepts(name: string)
    ensures ChalkSet(name).Ok? <==> name in SetNames
    ensures ChalkSet(name).Err? ==> ChalkSet(name).error == ValueError
  {
  }

  /** Setting a style by its wrapper's name writes the code that wrapper opens with. */
  lemma ChalkSetMatchesWrapper(style: ChalkStyle)
    ensures ChalkSet(WrapperName(style)) == Ok(Opening(style))
  {
  }

  /** `"b"` is short for `"bold"`. */
  lemma BoldAliases()
    ensures ChalkSet("b") == ChalkSet("bold") == Ok(Opening(Bold))
  {
  }

  /** `"italics"` and `"i"` select italics. */
  lemma ItalicAliases()
    ensures ChalkSet("italics") == ChalkSet("i") == Ok(Opening(Italic))
  {
  }

  /** `"underlined"`, `"underl"` and `"ul"` select underlining. */
  lemma UnderlineAliases()
    ensures ChalkSet("underlined") == ChalkSet("underl") == ChalkSet("ul") == Ok(Opening(Underline))
  {
  }

  /** `"purple"` is another name for magenta. */
  lemma MagentaAliases()
    ensures ChalkSet("purple") == ChalkSet("magenta") == Ok(Opening(Magenta))
  {
  }

  // ---------------------------------------------------------------------------
  // reverse(iterable)
  // ---------------------------------------------------------------------------

  /** `reverse(v)`: a list or str reversed, a dict with its items reversed, `None` otherwise. */
  function ReverseValue(v: Value): (r: Option<Value>)
    ensures r.None? <==> v.Other?
    ensures v.Str? ==> r == Some(Str(Reverse(v.s)))
    ensures v.List? ==> r == Some(List(Reverse(v.items)))
  {
    match v
    case Str(s) => Some(Str(Reverse(s)))
    case List(items) => Some(List(Reverse(items)))
    case Dict(pairs) => Some(Dict(Types.DictReverse(pairs)))
    case Other => None
  }

  /** A dict keeps its pairs and lists them back to front. */
  lemma ReverseDict(pairs: seq<(Value, Value)>)
    requires Types.DistinctKeys(pairs)
    ensures ReverseValue(Dict(pairs)) == Some(Dict(Reverse(pairs)))
  {
    Types.DictReverseSpec(pairs);
  }

  /** Reversing twice gives back any str, list or dict. */
  lemma ReverseValueTwice(v: Value)
    requires !v.Other?
    requires v.Dict? ==> Types.DistinctKeys(v.pairs)
    ensures ReverseValue(v).Some? && ReverseValue(ReverseValue(v).value) == Some(v)
  {
    match v
    case Str(s) => ReverseReverse(s);
    case List(items) => ReverseReverse(items);
    case Dict(pairs) =>
      Types.DictReverseSpec(pairs);
      Types.ReverseKeepsDistinctKeys(pairs);
  }

  // ---------------------------------------------------------------------------
  // replace_all(text, old, new)
  // ---------------------------------------------------------------------------

  /** `f` applied `k` times to `x`. */
  function Iterate<T>(f: T -> T, x: T, k: nat): T
    decreases k
  {
    if k == 0 then x else Iterate(f, f(x), k - 1)
  }

  /** A fixed point of `f` stays put. */
  lemma {:induction false} IterateFixed<T>(f: T -> T, x: T, j: nat)
    requires f(x) == x
    ensures Iterate(f, x, j) == x
    decreases j
  {
    if j > 0 {
      IterateFixed(f, x, j - 1);
    }
  }

  /** Once the iteration reaches a fixed point, every later step gives the same value. */
  lemma {:induction false} IterateSettled<T>(f: T -> T, x: T, k: nat, j: nat)
    requires f(Iterate(f, x, k)) == Iterate(f, x, k) && k <= j
    ensures Iterate(f, x, j) == Iterate(f, x, k)
    decreases k
  {
    if k == 0 {
      IterateFixed(f, x, j);
    } else {
      IterateSettled(f, f(x), k - 1, j - 1);
    }
  }

  /** One round of the loop body `text = text.replace(p, rep)`. */
  function Round(p: string, rep: string): string -> string {
    t => Replace(t, p, rep)
  }

  /** `text` after `k` rounds of the loop body. */
  function Rewrite(text: string, p: string, rep: string, k: nat): string {
    Iterate(Round(p, rep), text, k)
  }

  /** The loop `while p in text` stops: some round leaves no occurrence of `p`. */
  ghost predicate Halts(text: string, p: string, rep: string) {
    exists k: nat :: !Occurs(p, Rewrite(text, p, rep, k))
  }

  /** Once `p` is gone, further rounds change nothing. */
  lemma RewriteSettled(text: string, p: string, rep: string, k: nat, j: nat)
    requires !Occurs(p, Rewrite(text, p, rep, k)) && k <= j
    ensures Rewrite(text, p, rep, j) == Rewrite(text, p, rep, k)
  {
    var x := Rewrite(text, p, rep, k);
    ReplaceAbsent(x, p, rep);
    assert Round(p, rep)(x) == Replace(x, p, rep) == x;
    IterateSettled(Round(p, rep), text, k, j);
  }

  /** A round is `str.replace`, and the rounds after it are the remaining ones. */
  lemma RewriteStep(text: string, p: string, rep: string, k: nat)
    requires k > 0
    ensures Rewrite(text, p, rep, k) == Rewrite(Replace(text, p, rep), p, rep, k - 1)
  {
    assert Round(p, rep)(text) == Replace(text, p, rep);
  }

  /** The text the loop stops with. */
  ghost function Settled(text: string, p: string, rep: string): (r: string)
    requires Halts(text, p, rep)
    ensures !Occurs(p, r)
  {
    var k: nat :| !Occurs(p, Rewrite(text, p, rep, k));
    Rewrite(text, p, rep, k)
  }

  /** Every round without an occurrence yields the same settled text. */
  lemma SettledAt(text: string, p: string, rep: string, k: nat)
    requires !Occurs(p, Rewrite(text, p, rep, k))
    ensures Halts(text, p, rep) && Settled(text, p, rep) == Rewrite(text, p, rep, k)
  {
    var j: nat :| !Occurs(p, Rewrite(text, p, rep, j)) && Settled(text, p, rep) == Rewrite(text, p, rep, j);
    if j <= k {
      RewriteSettled(text, p, rep, j, k);
    } else {
      RewriteSettled(text, p, rep, k, j);
    }
  }

  /** What a call does: returns a text, raises an error, or never returns. */
  datatype Outcome = Returns(text: string) | Raises(error: Error) | Loops

  /** `replace_all(text, pattern, rep)`. */
  ghost function ReplaceAll(text: string, pattern: Value, rep: string): Outcome
    decreases pattern
  {
    match pattern
    case List(items) => ReplaceAllEach(text, items, rep)
    case Str(p) => if Halts(text, p, rep) then Returns(Settled(text, p, rep)) else Loops
    case _ => Raises(TypeError)
  }

  /** The `for i in old` loop: each element applied in turn, the first error or endless loop ending it. */
  ghost function ReplaceAllEach(text: string, items: seq<Value>, rep: string): Outcome
    decreases items
  {
    if items == [] then Returns(text)
    else
      match ReplaceAllEach(text, items[..|items| - 1], rep)
      case Returns(t) => ReplaceAll(t, items[|items| - 1], rep)
      case o => o
  }

  /** Applying `a + b` is applying `a`, then `b` to what it returned. */
  lemma {:induction false} ReplaceAllEachConcat(text: string, a: seq<Value>, b: seq<Value>, rep: string)
    ensures ReplaceAllEach(text, a + b, rep) ==
      match ReplaceAllEach(text, a, rep)
      case Returns(t) => ReplaceAllEach(t, b, rep)
      case o => o
    decreases |b|
  {
    if b == [] {
      assert a + b == a;
    } else {
      var c := b[..|b| - 1];
      assert (a + b)[..|a + b| - 1] == a + c;
      assert (a + b)[|a + b| - 1] == b[|b| - 1];
      ReplaceAllEachConcat(text, a, c, rep);
    }
  }

  /** Once an element stops the loop, the rest of the list never runs. */
  lemma ReplaceAllEachStops(text: string, items: seq<Value>, rep: string, i: nat)
    requires i <= |items| && !ReplaceAllEach(text, items[..i], rep).Returns?
    ensures ReplaceAllEach(text, items, rep) == ReplaceAllEach(text, items[..i], rep)
  {
    ReplaceAllEachConcat(text, items[..i], items[i..], rep);
    assert items[..i] + items[i..] == items;
  }

  lemma ReplaceAllEachSnoc(text: string, items: seq<Value>, rep: string, i: nat)
    requires i < |items|
    ensures ReplaceAllEach(text, items[..i + 1], rep) ==
      match ReplaceAllEach(text, items[..i], rep)
      case Returns(t) => ReplaceAll(t, items[i], rep)
      case o => o
  {
    assert items[..i + 1][..i] == items[..i];
  }

  /** `replace_all` on a text without the pattern returns it unchanged. */
  lemma ReplaceAllAbsent(text: string, p: string, rep: string)
    requires !Occurs(p, text)
    ensures ReplaceAll(text, Str(p), rep) == Returns(text)
  {
    SettledAt(text, p, rep, 0);
  }

  /** When `replace_all` returns, the pattern is gone from the result. */
  lemma ReplaceAllRemoves(text: string, p: string, rep: string)
    ensures ReplaceAll(text, Str(p), rep).Returns? <==> Halts(text, p, rep)
    ensures ReplaceAll(text, Str(p), rep).Returns? ==> !Occurs(p, ReplaceAll(text, Str(p), rep).text)
  {
  }

  /** A one-character pattern missing from the replacement is gone after a single `str.replace`. */
  lemma ReplaceAllOneChar(text: string, c: char, rep: string)
    requires c !in rep
    ensures ReplaceAll(text, Str([c]), rep) == Returns(Replace(text, [c], rep))
  {
    ReplaceCharRemoves(text, c, rep);
    MissingStart([c], Replace(text, [c], rep));
    SettledAt(text, [c], rep, 1);
  }

  /** The empty pattern is in every text: the loop never ends. */
  lemma ReplaceAllEmptyLoops(text: string, rep: string)
    ensures ReplaceAll(text, Str([]), rep) == Loops
  {
    forall k: nat ensures Occurs([], Rewrite(text, [], rep, k)) {
      assert At([], Rewrite(text, [], rep, k), 0);
    }
  }

  /** A property every step keeps holds after any number of steps. */
  lemma {:induction false} IterateKeeps<T>(f: T -> T, keep: T -> bool, x: T, k: nat)
    requires keep(x) && forall y :: keep(y) ==> keep(f(y))
    ensures keep(Iterate(f, x, k))
    decreases k
  {
    if k > 0 {
      IterateKeeps(f, keep, f(x), k - 1);
    }
  }

  lemma FeedsEveryRound(text: string, p: string, rep: string, k: nat)
    requires p != [] && Occurs(p, rep) && Occurs(p, text)
    ensures Occurs(p, Rewrite(text, p, rep, k))
  {
    var keep := (t: string) => Occurs(p, t);
    forall t | keep(t) ensures keep(Round(p, rep)(t)) {
      ReplaceShowsReplacement(t, p, rep);
      OccursTrans(p, rep, Replace(t, p, rep));
    }
    IterateKeeps(Round(p, rep), keep, text, k);
  }

  /** A replacement that holds the pattern brings it back every round: the loop never ends. */
  lemma ReplaceAllFeedsItself(text: string, p: string, rep: string)
    requires p != [] && Occurs(p, rep) && Occurs(p, text)
    ensures ReplaceAll(text, Str(p), rep) == Loops
  {
    forall k: nat ensures Occurs(p, Rewrite(text, p, rep, k)) {
      FeedsEveryRound(text, p, rep, k);
    }
  }

  /** A one-element list is its element, and a nested list is applied element by element. */
  lemma ReplaceAllList(text: string, x: Value, items: seq<Value>, rep: string)
    ensures ReplaceAll(text, List([x]), rep) == ReplaceAll(text, x, rep)
    ensures ReplaceAll(text, List([List(items)]), rep) == ReplaceAll(text, List(items), rep)
    ensures ReplaceAll(text, List([]), rep) == Returns(text)
  {
    assert [x][..0] == [];
    assert ReplaceAllEach(text, [x][..0], rep) == Returns(text);
    assert [List(items)][..0] == [];
    assert ReplaceAllEach(text, [List(items)][..0], rep) == Returns(text);
  }

  /** The `while old in text` loop of `replace_all`, for a text on which it stops. */
  method RepeatReplace(text: string, p: string, rep: string) returns (t: string)
    requires Halts(text, p, rep)
    ensures !Occurs(p, t)
    ensures t == Settled(text, p, rep)
  {
    ghost var k: nat :| !Occurs(p, Rewrite(text, p, rep, k));
    t := text;
    while Occurs(p, t)
      invariant !Occurs(p, Rewrite(t, p, rep, k))
      invariant Halts(t, p, rep) && Settled(t, p, rep) == Settled(text, p, rep)
      decreases k
    {
      assert k != 0;
      RewriteStep(t, p, rep, k);
      SettledAt(t, p, rep, k);
      SettledAt(Replace(t, p, rep), p, rep, k - 1);
      t := Replace(t, p, rep);
      k := k - 1;
    }
    SettledAt(t, p, rep, 0);
  }

  /**
   * `replace_all(text, pattern, rep)` for arguments on which it returns: a
   * list is applied element by element, a str is replaced until it is gone,
   * anything else raises `TypeError`.
   */
  method ReplaceAllText(text: string, pattern: Value, rep: string) returns (r: Result<string>)
    requires !ReplaceAll(text, pattern, rep).Loops?
    ensures r.Ok? ==> ReplaceAll(text, pattern, rep) == Returns(r.value)
    ensures r.Err? ==> ReplaceAll(text, pattern, rep) == Raises(r.error)
    ensures pattern.Str? ==> r.Ok? && !Occurs(pattern.s, r.value)
    ensures (pattern.Dict? || pattern.Other?) ==> r == Err(TypeError)
    decreases pattern
  {
    match pattern
    case List(items) =>
      r := ReplaceAllEachText(text, items, rep);
    case Str(p) =>
      var t := RepeatReplace(text, p, rep);
      r := Ok(t);
    case _ =>
      r := Err(TypeError);
  }

  /** The `for i in old` loop of `replace_all`. */
  method ReplaceAllEachText(text: string, items: seq<Value>, rep: string) returns (r: Result<string>)
    requires !ReplaceAllEach(text, items, rep).Loops?
    ensures r.Ok? ==> ReplaceAllEach(text, items, rep) == Returns(r.value)
    ensures r.Err? ==> ReplaceAllEach(text, items, rep) == Raises(r.error)
    decreases items
  {
    var t := text;
    var i := 0;
    while i < |items|
      invariant 0 <= i <= |items|
      invariant ReplaceAllEach(text, items[..i], rep) == Returns(t)
    {
      ReplaceAllEachSnoc(text, items, rep, i);
      ReplaceAllEachConcat(text, items[..i + 1], items[i + 1..], rep);
      assert items[..i + 1] + items[i + 1..] == items;
      var step := ReplaceAllText(t, items[i], rep);
      if step.Err? {
        ReplaceAllEachStops(text, items, rep, i + 1);
        return step;
      }
      t := step.value;
      i := i + 1;
    }
    assert items[..|items|] == items;
    r := Ok(t);
  }
}
