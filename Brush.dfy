/**
 * commoner.brush: a static table of ANSI SGR style codes, an alias table,
 * name resolution (`find`), escape-string rendering (`assemble`), the name
 * listings (`all_styles` and friends), `Brush.rainbow`, and the per-style
 * wrappers that `Brush.generate_dynamic_functions` installs on the class.
 * Every operation here builds a string; the methods that print are modelled
 * by the string they write.
 */
module Brush {
  import opened PyStr
  import opened Ansi

  /** An [open, close] code pair of the style table. */
  datatype Codes = Codes(open: int, close: int)

  // ---------------------------------------------------------------------------
  // The style table `styles`: three categories, each an insertion-ordered
  // dictionary. A dictionary is its lookup (a match on the key) together with
  // its key order (the list `for style in styles[category]` walks).
  // ---------------------------------------------------------------------------

  datatype Category = Modifier | Color | BgColor

  /** The categories in the order `for category in styles` visits them. */
  const Categories: seq<Category> := [Modifier, Color, BgColor]

  function ModifierCodes(name: string): Option<Codes> {
    match name
    case "reset" => Some(Codes(0, 0))
    case "bold" => Some(Codes(1, 22))
    case "dim" => Some(Codes(2, 22))
    case "italic" => Some(Codes(3, 23))
    case "underline" => Some(Codes(4, 24))
    case "overline" => Some(Codes(53, 55))
    case "inverse" => Some(Codes(7, 27))
    case "hidden" => Some(Codes(8, 28))
    case "strikethrough" => Some(Codes(9, 29))
    case _ => None
  }

  const ModifierNames: seq<string> :=
    ["reset", "bold", "dim", "italic", "underline", "overline", "inverse", "hidden", "strikethrough"]

  function ColorCodes(name: string): Option<Codes> {
    match name
    case "black" => Some(Codes(30, 39))
    case "red" => Some(Codes(31, 39))
    case "green" => Some(Codes(32, 39))
    case "yellow" => Some(Codes(33, 39))
    case "blue" => Some(Codes(34, 39))
    case "magenta" => Some(Codes(35, 39))
    case "cyan" => Some(Codes(36, 39))
    case "white" => Some(Codes(37, 39))
    case "blackBright" => Some(Codes(90, 39))
    case "gray" => Some(Codes(90, 39))
    case "redBright" => Some(Codes(91, 39))
    case "greenBright" => Some(Codes(92, 39))
    case "yellowBright" => Some(Codes(93, 39))
    case "blueBright" => Some(Codes(94, 39))
    case "magentaBright" => Some(Codes(95, 39))
    case "cyanBright" => Some(Codes(96, 39))
    case "whiteBright" => Some(Codes(97, 39))
    case _ => None
  }

  const ColorNames: seq<string> :=
    ["black", "red", "green", "yellow", "blue", "magenta", "cyan", "white",
     "blackBright", "gray", "redBright", "greenBright", "yellowBright",
     "blueBright", "magentaBright", "cyanBright", "whiteBright"]

  function BgColorCodes(name: string): Option<Codes> {
    match name
    case "bgBlack" => Some(Codes(40, 49))
    case "bgRed" => Some(Codes(41, 49))
    case "bgGreen" => Some(Codes(42, 49))
    case "bgYellow" => Some(Codes(43, 49))
    case "bgBlue" => Some(Codes(44, 49))
    case "bgMagenta" => Some(Codes(45, 49))
    case "bgCyan" => Some(Codes(46, 49))
    case "bgWhite" => Some(Codes(47, 49))
    case "bgGray" => Some(Codes(100, 49))
    case "bgBlackBright" => Some(Codes(100, 49))
    case "bgRedBright" => Some(Codes(101, 49))
    case "bgGreenBright" => Some(Codes(102, 49))
    case "bgYellowBright" => Some(Codes(103, 49))
    case "bgBlueBright" => Some(Codes(104, 49))
    case "bgMagentaBright" => Some(Codes(105, 49))
    case "bgCyanBright" => Some(Codes(106, 49))
    case "bgWhiteBright" => Some(Codes(107, 49))
    case _ => None
  }

  const BgColorNames: seq<string> :=
    ["bgBlack", "bgRed", "bgGreen", "bgYellow", "bgBlue", "bgMagenta", "bgCyan",
     "bgWhite", "bgGray", "bgBlackBright", "bgRedBright", "bgGreenBright",
     "bgYellowBright", "bgBlueBright", "bgMagentaBright", "bgCyanBright", "bgWhiteBright"]

  /** `styles[category].get(name)`. */
  function CategoryCodes(category: Category, name: string): Option<Codes> {
    match category
    case Modifier => ModifierCodes(name)
    case Color => ColorCodes(name)
    case BgColor => BgColorCodes(name)
  }

  /** The keys of `styles[category]` in insertion order. */
  function CategoryNames(category: Category): seq<string> {
    match category
    case Modifier => ModifierNames
    case Color => ColorNames
    case BgColor => BgColorNames
  }

  /** Each name list holds exactly the keys of its dictionary. */
  lemma CategoryNamesAreKeys(category: Category, name: string)
    ensures CategoryCodes(category, name).Some? <==> name in CategoryNames(category)
  {
    match category
    case Modifier => ModifierNamesAreKeys(name);
    case Color => ColorNamesAreKeys(name);
    case BgColor => BgColorNamesAreKeys(name);
  }

  lemma ModifierNamesAreKeys(name: string)
    ensures ModifierCodes(name).Some? <==> name in ModifierNames
  {
  }

  lemma ColorNamesAreKeys(name: string)
    ensures ColorCodes(name).Some? <==> name in ColorNames
  {
  }

  lemma BgColorNamesAreKeys(name: string)
    ensures BgColorCodes(name).Some? <==> name in BgColorNames
  {
  }

  /** The names of the given categories, category by category. */
  function FlatNames(categories: seq<Category>): seq<string> {
    if categories == [] then [] else FlatNames(categories[..|categories| - 1]) + CategoryNames(categories[|categories| - 1])
  }

  /** All style names of the table. */
  function AllNames(): seq<string> {
    FlatNames(Categories)
  }

  lemma AllNamesListed()
    ensures AllNames() == ModifierNames + ColorNames + BgColorNames
  {
    assert Categories[..2] == [Modifier, Color];
    assert Categories[..2][..1] == [Modifier];
    assert Categories[..2][..1][..0] == [];
    assert FlatNames([Modifier]) == ModifierNames;
    assert FlatNames([Modifier, Color]) == ModifierNames + ColorNames;
  }

  /** `aliases.get(name)`: the table name an alternate name stands for. */
  function Alias(name: string): Option<string> {
    match name
    case "grey" => Some("gray")
    case "underlined" => Some("underline")
    case "ul" => Some("underline")
    case "overlined" => Some("overline")
    case "bgGrey" => Some("bgGray")
    case "brightBlack" => Some("blackBright")
    case "brightRed" => Some("redBright")
    case "brightGreen" => Some("greenBright")
    case "brightYellow" => Some("yellowBright")
    case "brightBlue" => Some("blueBright")
    case "brightMagenta" => Some("magentaBright")
    case "brightCyan" => Some("cyanBright")
    case "brightWhite" => Some("whiteBright")
    case "bgBrightBlack" => Some("bgBlackBright")
    case "bgBrightRed" => Some("bgRedBright")
    case "bgBrightGreen" => Some("bgGreenBright")
    case "bgBrightYellow" => Some("bgYellowBright")
    case "bgBrightBlue" => Some("bgBlueBright")
    case "bgBrightMagenta" => Some("bgMagentaBright")
    case "bgBrightCyan" => Some("bgCyanBright")
    case "bgBrightWhite" => Some("bgWhiteBright")
    case _ => None
  }

  // ---------------------------------------------------------------------------
  // find
  // ---------------------------------------------------------------------------

  /** The `for category in styles` scan: the codes from the first category holding the name. */
  function FindIn(categories: seq<Category>, name: string): (r: Option<Codes>)
    ensures r.Some? <==> exists k :: 0 <= k < |categories| && CategoryCodes(categories[k], name).Some?
  {
    if categories == [] then None
    else match CategoryCodes(categories[0], name)
      case Some(codes) => Some(codes)
      case None => FindIn(categories[1..], name)
  }

  /** The scan over the real table, written out. */
  lemma FindInStyles(name: string)
    ensures FindIn(Categories, name) ==
      if ModifierCodes(name).Some? then ModifierCodes(name)
      else if ColorCodes(name).Some? then ColorCodes(name)
      else BgColorCodes(name)
  {
    assert Categories[1..] == [Color, BgColor];
    assert Categories[1..][1..] == [BgColor];
  }

  /** Every alias stands for a name of the table itself, never for another alias. */
  lemma AliasTargetIsStyle(name: string)
    requires Alias(name).Some?
    ensures FindIn(Categories, Alias(name).value).Some?
  {
    var target := Alias(name).value;
    assert target in ModifierNames || target in ColorNames || target in BgColorNames;
    CategoryNamesAreKeys(Modifier, target);
    CategoryNamesAreKeys(Color, target);
    CategoryNamesAreKeys(BgColor, target);
    FindInStyles(target);
  }

  /**
   * `find(style)`: the code pair of a table name (from the first category
   * holding it), else the code pair of the name an alias stands for, else None.
   */
  function Find(name: string): Option<Codes>
    decreases if FindIn(Categories, name).None? && Alias(name).Some? then 1 else 0
  {
    match FindIn(Categories, name)
    case Some(codes) => Some(codes)
    case None =>
      match Alias(name)
      case Some(target) =>
        AliasTargetIsStyle(name);
        Find(target)
      case None => None
  }

  /** No name sits in two categories. */
  lemma CategoriesDisjoint(name: string)
    ensures ModifierCodes(name).Some? ==> ColorCodes(name).None?
    ensures ModifierCodes(name).Some? ==> BgColorCodes(name).None?
  {
  }

  lemma ColorsDisjoint(name: string)
    ensures ColorCodes(name).Some? ==> BgColorCodes(name).None?
  {
  }

  /** No alias is a name of the table, so the table always wins the scan. */
  lemma AliasesNotModifiers(name: string)
    ensures Alias(name).Some? ==> ModifierCodes(name).None?
  {
  }

  lemma AliasesNotColors(name: string)
    ensures Alias(name).Some? ==> ColorCodes(name).None?
  {
  }

  lemma AliasesNotBgColors(name: string)
    ensures Alias(name).Some? ==> BgColorCodes(name).None?
  {
  }

  /** `find` succeeds exactly on the table's names and the aliases. */
  lemma FindResolves(name: string)
    ensures Find(name).Some? <==> (name in AllNames() || Alias(name).Some?)
  {
    AllNamesListed();
    FindInStyles(name);
    CategoryNamesAreKeys(Modifier, name);
    CategoryNamesAreKeys(Color, name);
    CategoryNamesAreKeys(BgColor, name);
    if Alias(name).Some? {
      AliasTargetIsStyle(name);
    }
  }

  /** A table name resolves to its own entry. */
  lemma FindTableName(category: Category, name: string)
    requires CategoryCodes(category, name).Some?
    ensures Find(name) == CategoryCodes(category, name)
  {
    FindInStyles(name);
    CategoriesDisjoint(name);
    ColorsDisjoint(name);
  }

  /** An alias resolves exactly as the name it stands for, and always resolves. */
  lemma FindAlias(name: string)
    requires Alias(name).Some?
    ensures Find(name) == Find(Alias(name).value)
    ensures Find(name).Some?
  {
    AliasesNotModifiers(name);
    AliasesNotColors(name);
    AliasesNotBgColors(name);
    FindInStyles(name);
    AliasTargetIsStyle(name);
  }

  /** The duplicate entries of the table: `gray` and its alias equal `blackBright`. */
  lemma FindGray()
    ensures Find("grey") == Find("gray") == Find("blackBright") == Some(Codes(90, 39))
  {
    FindAlias("grey");
    FindTableName(Color, "gray");
    FindTableName(Color, "blackBright");
  }

  /** `bgGray` and its alias equal `bgBlackBright`. */
  lemma FindBgGray()
    ensures Find("bgGrey") == Find("bgGray") == Find("bgBlackBright") == Some(Codes(100, 49))
  {
    FindAlias("bgGrey");
    FindTableName(BgColor, "bgGray");
    FindTableName(BgColor, "bgBlackBright");
  }

  // ---------------------------------------------------------------------------
  // all_styles, all_modifiers, all_colors, all_bg_colors
  // ---------------------------------------------------------------------------

  /** `for style in names: output.append(style)`. */
  method AppendEach(output: seq<string>, names: seq<string>) returns (r: seq<string>)
    ensures r == output + names
  {
    r := output;
    for i := 0 to |names|
      invariant r == output + names[..i]
    {
      r := r + [names[i]];
      assert names[..i + 1] == names[..i] + [names[i]];
    }
    assert names[..|names|] == names;
  }

  /** `all_modifiers()`, `all_colors()`, `all_bg_colors()`: the keys of one category in table order. */
  method AllOf(category: Category) returns (output: seq<string>)
    ensures output == CategoryNames(category)
    ensures forall i :: 0 <= i < |output| ==> Find(output[i]) == CategoryCodes(category, output[i])
  {
    output := AppendEach([], CategoryNames(category));
    assert [] + CategoryNames(category) == CategoryNames(category);
    forall i | 0 <= i < |output|
      ensures Find(output[i]) == CategoryCodes(category, output[i])
    {
      CategoryNamesAreKeys(category, output[i]);
      FindTableName(category, output[i]);
    }
  }

  /** Taking one more category appends its names. */
  lemma FlatNamesSnoc(k: nat)
    requires k < |Categories|
    ensures FlatNames(Categories[..k + 1]) == FlatNames(Categories[..k]) + CategoryNames(Categories[k])
  {
    assert Categories[..k + 1][..k] == Categories[..k];
  }

  /** `all_styles()`: every key of every category, categories in table order. */
  method AllStyles() returns (output: seq<string>)
    ensures output == AllNames()
    ensures forall i :: 0 <= i < |output| ==> Find(output[i]).Some?
  {
    output := [];
    for k := 0 to |Categories|
      invariant output == FlatNames(Categories[..k])
    {
      output := AppendEach(output, CategoryNames(Categories[k]));
      FlatNamesSnoc(k);
    }
    assert Categories[..|Categories|] == Categories;
    AllNamesResolve();
  }

  /** Every listed name resolves. */
  lemma AllNamesResolve()
    ensures forall i :: 0 <= i < |AllNames()| ==> Find(AllNames()[i]).Some?
  {
    forall i | 0 <= i < |AllNames()|
      ensures Find(AllNames()[i]).Some?
    {
      FindResolves(AllNames()[i]);
    }
  }

  // ---------------------------------------------------------------------------
  // assemble
  // ---------------------------------------------------------------------------

  /** `assemble(open, close)`: the open sequence, then the close sequence, each only when given. */
  function Assemble(open: Option<int>, close: Option<int>): string {
    match (open, close)
    case (None, None) => ""
    case (None, Some(c)) => Sgr(c)
    case (Some(o), None) => Sgr(o)
    case (Some(o), Some(c)) => Sgr(o) + Sgr(c)
  }

  /** `assemble` round-trips through the reader: it writes exactly the codes given, nothing visible. */
  lemma AssembleDecodes(open: Option<int>, close: Option<int>)
    ensures Decode(Assemble(open, close)) ==
      (if open.Some? then [open.value] else []) + (if close.Some? then [close.value] else [])
    ensures Strip(Assemble(open, close)) == []
  {
    match (open, close)
    case (None, None) =>
    case (None, Some(c)) =>
      SgrFront(c, []);
      assert Sgr(c) + [] == Sgr(c);
    case (Some(o), None) =>
      SgrFront(o, []);
      assert Sgr(o) + [] == Sgr(o);
    case (Some(o), Some(c)) =>
      SgrFront(o, Sgr(c));
      SgrFront(c, []);
      assert Sgr(c) + [] == Sgr(c);
  }

  // ---------------------------------------------------------------------------
  // Painting: the generated wrappers, Brush.print, Brush.set, Brush.reset
  // ---------------------------------------------------------------------------

  /** `f"{assemble(open=o)}{text}{assemble(close=c)}"`. */
  function Paint(codes: Codes, text: string): string {
    Assemble(Some(codes.open), None) + text + Assemble(None, Some(codes.close))
  }

  /** Painted plain text shows the text itself and carries the open and close codes around it. */
  lemma PaintReads(codes: Codes, text: string)
    requires Plain(text)
    ensures Strip(Paint(codes, text)) == text
    ensures Decode(Paint(codes, text)) == [codes.open, codes.close]
  {
    var opening, closing := Sgr(codes.open), Sgr(codes.close);
    assert Assemble(Some(codes.open), None) == opening;
    assert Assemble(None, Some(codes.close)) == closing;
    var tail := text + closing;
    assert Paint(codes, text) == opening + tail;
    PlainThenSgr(text, codes.close);
    SgrFront(codes.open, tail);
  }

  /** Plain text followed by one code shows the text and reads as that code. */
  lemma PlainThenSgr(text: string, n: int)
    requires Plain(text)
    ensures Strip(text + Sgr(n)) == text
    ensures Decode(text + Sgr(n)) == [n]
  {
    PlainFront(text, Sgr(n));
    SgrFront(n, []);
    assert Sgr(n) + [] == Sgr(n);
  }

  /**
   * `Brush.<name>(text)` for the wrappers `generate_dynamic_functions`
   * installs: one per table name, none for an alias.
   */
  function Styled(name: string, text: string): (r: Result<string>)
    ensures r.Ok? <==> name in AllNames()
    ensures r.Err? ==> r.error == AttributeError
  {
    FindResolves(name);
    if name in AllNames() then Ok(Paint(Find(name).value, text)) else Err(AttributeError)
  }

  /** A wrapper paints with its own style's codes and keeps plain text visible. */
  lemma StyledReads(name: string, text: string)
    requires name in AllNames() && Plain(text)
    ensures Strip(Styled(name, text).value) == text
    ensures Find(name).Some?
    ensures Decode(Styled(name, text).value) == [Find(name).value.open, Find(name).value.close]
  {
    FindResolves(name);
    PaintReads(Find(name).value, text);
  }

  lemma SgrRed()
    ensures Sgr(31) == "\U{1B}[31m" && Sgr(39) == "\U{1B}[39m"
  {
    assert NatToDecimal(3) == "3";
    assert NatToDecimal(31) == "3" + "1";
    assert NatToDecimal(39) == "3" + "9";
  }

  lemma RedListed()
    ensures "red" in AllNames() && Find("red") == Some(Codes(31, 39))
  {
    AllNamesListed();
    assert "red" in ColorNames;
    FindTableName(Color, "red");
  }

  /** `Brush.red("hi")`, written out. */
  lemma StyledRed()
    ensures Styled("red", "hi") == Ok("\U{1B}[31mhi\U{1B}[39m")
  {
    RedListed();
    SgrRed();
    assert Styled("red", "hi") == Ok(Sgr(31) + "hi" + Sgr(39));
    assert "\U{1B}[31m" + "hi" + "\U{1B}[39m" == "\U{1B}[31mhi\U{1B}[39m";
  }

  /** `Brush.print(message, style)`: the painted message and a newline; TypeError for an unknown style. */
  function PrintLine(message: string, style: string): (r: Result<string>)
    ensures r.Ok? <==> Find(style).Some?
    ensures r.Ok? ==> r.value == Paint(Find(style).value, message) + "\n"
    ensures r.Err? ==> r.error == TypeError
  {
    match Find(style)
    case None => Err(TypeError)
    case Some(codes) => Ok(Paint(codes, message) + "\n")
  }

  /** A printed plain message shows itself and its newline, between the style's open and close codes. */
  lemma PrintLineReads(message: string, style: string)
    requires Plain(message) && Find(style).Some?
    ensures Strip(PrintLine(message, style).value) == message + "\n"
    ensures Decode(PrintLine(message, style).value) == [Find(style).value.open, Find(style).value.close]
  {
    PaintLineReads(Find(style).value, message);
  }

  /** Painted plain text and a newline show the text and the newline, and carry the two codes. */
  lemma PaintLineReads(codes: Codes, message: string)
    requires Plain(message)
    ensures Strip(Paint(codes, message) + "\n") == message + "\n"
    ensures Decode(Paint(codes, message) + "\n") == [codes.open, codes.close]
  {
    var opening, closing := Sgr(codes.open), Sgr(codes.close);
    assert Assemble(Some(codes.open), None) == opening;
    assert Assemble(None, Some(codes.close)) == closing;
    assert Paint(codes, message) + "\n" == opening + (message + (closing + "\n"));
    CharFront('\n', []);
    assert ['\n'] + [] == "\n";
    SgrFront(codes.close, "\n");
    PlainFront(message, closing + "\n");
    SgrFront(codes.open, message + (closing + "\n"));
  }

  /** `Brush.set(style)`: the open sequence of the style; TypeError for an unknown style. */
  function SetStyle(style: string): (r: Result<string>)
    ensures r.Ok? <==> Find(style).Some?
    ensures r.Err? ==> r.error == TypeError
  {
    match Find(style)
    case None => Err(TypeError)
    case Some(codes) => Ok(Assemble(Some(codes.open), None))
  }

  lemma SetStyleReads(style: string)
    requires Find(style).Some?
    ensures Decode(SetStyle(style).value) == [Find(style).value.open]
    ensures Strip(SetStyle(style).value) == []
  {
    AssembleDecodes(Some(Find(style).value.open), None);
  }

  /**
   * `Brush.reset()` as the class body defines it: the close code of `reset`.
   * This is what the method evidently means; see `ResetAsCalled` for what
   * the attribute `Brush.reset` is once the wrappers are installed.
   */
  function ResetStyle(): (r: string)
    ensures Decode(r) == [0] && Strip(r) == []
  {
    FindTableName(Modifier, "reset");
    AssembleDecodes(None, Some(Find("reset").value.close));
    Assemble(None, Some(Find("reset").value.close))
  }

  /**
   * `Brush.reset(*args)` as the code is written: `generate_dynamic_functions`
   * installs a wrapper for every table name, `reset` among them, and that
   * wrapper replaces the method. It needs the text argument.
   */
  function ResetAsCalled(text: Option<string>): Result<string> {
    match text
    case None => Err(TypeError)
    case Some(t) => Styled("reset", t)
  }

  /** The wrapper shadows the method: a bare `Brush.reset()` raises instead of writing the reset code. */
  lemma ResetIsShadowed(text: string)
    ensures ResetAsCalled(None) == Err(TypeError)
    ensures ResetAsCalled(Some(text)) == Ok(Paint(Codes(0, 0), text))
    ensures ResetStyle() == "\U{1B}[0m"
  {
    AllNamesListed();
    assert AllNames()[0] == "reset";
    FindTableName(Modifier, "reset");
  }

  // ---------------------------------------------------------------------------
  // Brush.rainbow
  // ---------------------------------------------------------------------------

  const DefaultPalette: seq<string> := ["red", "yellow", "green", "cyan", "blue", "magenta"]

  /** The background `rainbow` uses when asked for one. */
  const RainbowBackground: string := "bgBrightBlack"

  lemma RainbowBackgroundCodes()
    ensures Find(RainbowBackground) == Some(Codes(100, 49))
  {
    FindAlias(RainbowBackground);
    FindTableName(BgColor, "bgBlackBright");
  }

  /** One character of the rainbow: foreground open, background open, the character, then both closes. */
  function Piece(fg: Codes, bg: Option<Codes>, ch: char): string {
    match bg
    case None =>
      Assemble(Some(fg.open), None) + [ch] + Assemble(None, Some(fg.close))
    case Some(b) =>
      Assemble(Some(fg.open), None) + Assemble(Some(b.open), None) + [ch]
        + Assemble(None, Some(fg.close)) + Assemble(None, Some(b.close))
  }

  /** `find` applied to every colour of the palette. */
  function Resolve(palette: seq<string>): (r: seq<Option<Codes>>)
    ensures |r| == |palette|
    ensures forall i :: 0 <= i < |palette| ==> r[i] == Find(palette[i])
  {
    seq(|palette|, i requires 0 <= i < |palette| => Find(palette[i]))
  }

  /** A palette colour resolves exactly when it is a table name or an alias. */
  lemma ResolveKnows(palette: seq<string>)
    ensures forall i :: 0 <= i < |palette| ==>
      (Resolve(palette)[i].Some? <==> palette[i] in AllNames() || Alias(palette[i]).Some?)
  {
    forall i | 0 <= i < |palette|
      ensures Resolve(palette)[i].Some? <==> palette[i] in AllNames() || Alias(palette[i]).Some?
    {
      FindResolves(palette[i]);
    }
  }

  /** `s[i % len(s)]`: the palette taken round and round. */
  function Cycle<T>(s: seq<T>, i: nat): T
    requires |s| > 0
  {
    s[i % |s|]
  }

  /** The colours of the first `n` characters all resolved. */
  predicate Resolves(n: nat, colors: seq<Option<Codes>>)
    requires |colors| > 0
  {
    forall i :: 0 <= i < n ==> Cycle(colors, i).Some?
  }

  lemma ResolvesGrows(n: nat, colors: seq<Option<Codes>>)
    requires |colors| > 0 && Resolves(n, colors) && Cycle(colors, n).Some?
    ensures Resolves(n + 1, colors)
  {
  }

  lemma ResolvesStops(i: nat, n: nat, colors: seq<Option<Codes>>)
    requires |colors| > 0 && i < n && Cycle(colors, i).None?
    ensures !Resolves(n, colors)
  {
  }

  /** The list `output` of `Brush.rainbow`: character `i` painted with colour `i % len(colors)`. */
  function Pieces(message: string, colors: seq<Option<Codes>>, bg: Option<Codes>): (r: seq<string>)
    requires |colors| > 0 && Resolves(|message|, colors)
    ensures |r| == |message|
  {
    seq(|message|, i requires 0 <= i < |message| && Resolves(|message|, colors) =>
      Piece(Cycle(colors, i).value, bg, message[i]))
  }

  /**
   * `Brush.rainbow(message, colors, background)`: the default palette when
   * none is given; ZeroDivisionError for an empty palette and a non-empty
   * message; TypeError (`None[0]`) when the colour of some character is not
   * a style; otherwise the pieces joined.
   */
  function Rainbow(message: string, colors: Option<seq<string>>, background: bool): Result<string> {
    var palette := if colors.None? then DefaultPalette else colors.value;
    if message == [] then Ok("")
    else if palette == [] then Err(ZeroDivisionError)
    else
      var resolved := Resolve(palette);
      var bg := if background then Find(RainbowBackground) else None;
      if Resolves(|message|, resolved) then Ok(Concat(Pieces(message, resolved, bg)))
      else Err(TypeError)
  }

  /** `Brush.rainbow`: pick the palette and the background, then run the loop. */
  method RainbowText(message: string, colors: Option<seq<string>>, background: bool) returns (r: Result<string>)
    ensures r == Rainbow(message, colors, background)
  {
    var palette := if colors.None? then DefaultPalette else colors.value;
    var bg: Option<Codes> := None;
    if background {
      bg := Find(RainbowBackground);
    }
    if message == [] {
      return Ok("");
    }
    if palette == [] {
      return Err(ZeroDivisionError);
    }
    r := RainbowLoop(message, palette, bg);
  }

  /** The loop of `Brush.rainbow`: one piece per character, joined at the end. */
  method RainbowLoop(message: string, palette: seq<string>, bg: Option<Codes>) returns (r: Result<string>)
    requires |palette| > 0
    ensures Resolves(|message|, Resolve(palette)) ==> r == Ok(Concat(Pieces(message, Resolve(palette), bg)))
    ensures !Resolves(|message|, Resolve(palette)) ==> r == Err(TypeError)
  {
    ghost var resolved := Resolve(palette);
    var output: seq<string> := [];
    for i := 0 to |message|
      invariant Resolves(i, resolved)
      invariant output == Pieces(message[..i], resolved, bg)
    {
      var codes := Find(palette[i % |palette|]);
      assert codes == Cycle(resolved, i);
      if codes.None? {
        ResolvesStops(i, |message|, resolved);
        return Err(TypeError);
      }
      ResolvesGrows(i, resolved);
      PiecesSnoc(message, i, resolved, bg);
      output := output + [Piece(codes.value, bg, message[i])];
    }
    assert message[..|message|] == message;
    r := Ok(Concat(output));
  }

  /** One more character adds its own piece at the end. */
  lemma PiecesSnoc(message: string, i: nat, colors: seq<Option<Codes>>, bg: Option<Codes>)
    requires i < |message| && |colors| > 0 && Resolves(i + 1, colors)
    ensures Pieces(message[..i + 1], colors, bg) == Pieces(message[..i], colors, bg) + [Piece(Cycle(colors, i).value, bg, message[i])]
  {
    var longer := Pieces(message[..i + 1], colors, bg);
    var shorter := Pieces(message[..i], colors, bg);
    var last := Piece(Cycle(colors, i).value, bg, message[i]);
    forall k | 0 <= k < i + 1
      ensures longer[k] == (shorter + [last])[k]
    {
      if k < i {
        assert message[..i + 1][k] == message[..i][k];
      } else {
        assert message[..i + 1][k] == message[i];
      }
    }
    assert |longer| == |shorter + [last]|;
  }

  /** A plain character between codes shows as itself. */
  lemma PieceFront(fg: Codes, bg: Option<Codes>, ch: char, t: string)
    requires ch != Esc
    ensures Strip(Piece(fg, bg, ch) + t) == [ch] + Strip(t)
  {
    match bg
    case None => PieceFrontPlain(fg, ch, t);
    case Some(b) => PieceFrontBackground(fg, b, ch, t);
  }

  lemma PieceFrontPlain(fg: Codes, ch: char, t: string)
    requires ch != Esc
    ensures Strip(Piece(fg, None, ch) + t) == [ch] + Strip(t)
  {
    var t2 := Sgr(fg.close) + t;
    var t1 := [ch] + t2;
    assert Piece(fg, None, ch) + t == Sgr(fg.open) + t1;
    SgrFront(fg.open, t1);
    PlainFront([ch], t2);
    SgrFront(fg.close, t);
  }

  lemma PieceFrontBackground(fg: Codes, b: Codes, ch: char, t: string)
    requires ch != Esc
    ensures Strip(Piece(fg, Some(b), ch) + t) == [ch] + Strip(t)
  {
    var o, bo, fc, bc := Sgr(fg.open), Sgr(b.open), Sgr(fg.close), Sgr(b.close);
    assert Piece(fg, Some(b), ch) == o + bo + [ch] + fc + bc;
    Assoc5(o, bo, [ch], fc, bc, t);
    var t2 := [ch] + (fc + (bc + t));
    var t1 := bo + t2;
    SgrFront(fg.open, t1);
    SgrFront(b.open, t2);
    PieceFrontTail(fg, b, ch, t);
  }

  lemma Assoc5<T>(a: seq<T>, b: seq<T>, c: seq<T>, d: seq<T>, e: seq<T>, t: seq<T>)
    ensures a + b + c + d + e + t == a + (b + (c + (d + (e + t))))
  {
  }

  lemma PieceFrontTail(fg: Codes, b: Codes, ch: char, t: string)
    requires ch != Esc
    ensures Strip([ch] + (Sgr(fg.close) + (Sgr(b.close) + t))) == [ch] + Strip(t)
  {
    PlainFront([ch], Sgr(fg.close) + (Sgr(b.close) + t));
    SgrFront(fg.close, Sgr(b.close) + t);
    SgrFront(b.close, t);
  }

  /** Parts that each show one character, joined, show those characters. */
  lemma {:induction false} JoinedShow(parts: seq<string>, chars: string)
    requires |parts| == |chars|
    requires forall i, t :: 0 <= i < |parts| ==> Strip(parts[i] + t) == [chars[i]] + Strip(t)
    ensures Strip(Concat(parts)) == chars
  {
    if parts != [] {
      JoinedShow(parts[1..], chars[1..]);
      assert Strip(parts[0] + Concat(parts[1..])) == [chars[0]] + Strip(Concat(parts[1..]));
      assert chars == [chars[0]] + chars[1..];
    }
  }

  /** Every piece of a plain message shows its own character. */
  lemma PiecesShowEach(message: string, colors: seq<Option<Codes>>, bg: Option<Codes>)
    requires |colors| > 0 && Resolves(|message|, colors) && Plain(message)
    ensures forall i, t :: 0 <= i < |message| ==> Strip(Pieces(message, colors, bg)[i] + t) == [message[i]] + Strip(t)
  {
    forall i, t | 0 <= i < |message|
      ensures Strip(Pieces(message, colors, bg)[i] + t) == [message[i]] + Strip(t)
    {
      assert message[i] in message;
      PieceFront(Cycle(colors, i).value, bg, message[i], t);
    }
  }

  /** The six default colours are all styles. */
  lemma DefaultPaletteResolves()
    ensures forall i :: 0 <= i < |DefaultPalette| ==> Find(DefaultPalette[i]).Some?
  {
    forall i | 0 <= i < |DefaultPalette|
      ensures Find(DefaultPalette[i]).Some?
    {
      assert DefaultPalette[i] in ColorNames;
      FindTableName(Color, DefaultPalette[i]);
    }
  }

  /**
   * The default palette never fails, and the visible text of a rainbow is the
   * message.
   */
  lemma RainbowShows(message: string, colors: Option<seq<string>>, background: bool)
    requires Plain(message)
    ensures colors.None? ==> Rainbow(message, colors, background).Ok?
    ensures Rainbow(message, colors, background).Ok? ==> Strip(Rainbow(message, colors, background).value) == message
  {
    var palette := if colors.None? then DefaultPalette else colors.value;
    if message != [] && palette != [] {
      var bg := if background then Find(RainbowBackground) else None;
      var resolved := Resolve(palette);
      if colors.None? {
        DefaultPaletteResolves();
        assert Resolves(|message|, resolved);
      }
      if Resolves(|message|, resolved) {
        PiecesShowEach(message, resolved, bg);
        JoinedShow(Pieces(message, resolved, bg), message);
      }
    }
  }

  /** An empty palette fails exactly when there is a character to colour. */
  lemma RainbowEmptyPalette(message: string, background: bool)
    ensures Rainbow(message, Some([]), background) == if message == [] then Ok("") else Err(ZeroDivisionError)
  {
  }
}
