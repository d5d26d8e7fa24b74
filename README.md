# commoner, modelled in Dafny

`commoner` is a small Python utility library. This project models its core in
Dafny and proves what that core promises:

- **`commoner.math.distance`**: the Levenshtein distance of two tokens, computed by
  filling a table row by row (`EditDistance.dfy`).
- **`commoner.brush`**, ANSI styling:
  - the `styles` table of (open, close) SGR codes in three categories, and the
    `aliases` table;
  - `assemble` and `find`, and the `all_*` listings;
  - `Brush.rainbow`, `Brush.set`, `Brush.reset`, `Brush.print`;
  - the one-wrapper-per-style attributes that `generate_dynamic_functions`
    installs (`Brush.dfy`).
- **`commoner.types`**, on `Dict`: `sort_values`, `sort_keys`, `swap_kv` and
  `reverse` (`Types.dfy`).
- **`commoner.types`**, on `Text`: `replace`, `reverse`, `count(char)`,
  `to_actual_title`, `to_initials` and `IGNORE_WORDS` (`Types.dfy`).
- **The top-level package** (`Commoner.dfy`):
  - the deprecated `Chalk` class: its eleven wrappers, `reset` and `set`;
  - the generic `reverse`;
  - `replace_all`, recursive over lists and looping over a str pattern.

Two support modules model the Python builtins the core relies on:

- `PyStr.dfy`:
  - `s[::-1]`, `sub in s`;
  - `str.replace`, `str.count`;
  - `str.split(" ")`, `" ".join`;
  - ASCII `upper`/`lower`, str ordering;
  - decimal rendering of ints;
  - a `Value` datatype for the dynamically typed arguments (str, list, dict, anything else).
- `Ansi.dfy`: a reader for SGR escape sequences.
  - `Strip` gives the visible text.
  - `Decode` lists the codes in order.

  The styling lemmas use it to state what the emitted strings mean on a
  terminal.

How the code is represented:

- A Python dict is an insertion-ordered sequence of pairs with distinct keys.
  `FromItems` builds one the way a dict comprehension does: a repeated key keeps
  its first position and takes its last value.
- `sorted` is a stable insertion sort under a total preorder.
- Errors Python raises become `Err(...)` of a `Result`.
- `replace_all` can also fail to return. Its meaning is an `Outcome`
  (`Returns`, `Raises` or `Loops`), and the method that runs it requires an
  outcome other than `Loops`.
- Printing is modelled by the string that would be printed.

Where a docstring and the code disagree, the model follows the code:

- The class docstring at `commoner/types/__init__.py:107` shows `to_initials`
  without the final dot. The code appends `"."` after every initial.
- The docstrings of `sort_values` and `sort_keys` (lines 33 and 49) are swapped.
  The code sorts `sort_values` by value and `sort_keys` by key.
- A word that is empty after `split(" ")` makes `to_actual_title` and
  `to_initials` index `word[0]`, which raises `IndexError`. It is modelled as
  `Err(IndexError)`, not excluded by a precondition.
- `Brush.reset` is shadowed by the generated `reset` wrapper. See "Findings".

## Model

| member | source | states |
|---|---|---|
| EditDistance.Distance | commoner/math/__init__.py:21-54 | the nested loops leave in the last cell the recurrence value for the full tokens, whatever `display` is |
| EditDistance.Lev | commoner/math/__init__.py:33-47 | the recurrence the nested loops fill in, cell by cell; no contract of its own, its properties are the Lev* lemmas below |
| EditDistance.Cheapest | commoner/math/__init__.py:42-47 | the if/elif/else chain picks one of the three neighbours, and one no larger than the other two |
| EditDistance.Border | commoner/math/__init__.py:23-27 | the first column holds the row index and the first row the column index |
| EditDistance.LevPrefix | commoner/math/__init__.py:33-47 | a cell depends only on the prefixes of the two tokens that it covers |
| EditDistance.CellIsPrefixDistance | commoner/math/__init__.py:33-47 | cell (i, j) is the distance of the two prefixes of lengths i and j |
| EditDistance.DistanceToEmpty | commoner/math/__init__.py:21-27 | the distance to an empty token is the other token's length |
| EditDistance.LevSelf | commoner/math/__init__.py:35-36 | the diagonal of a token against itself is all zeros |
| EditDistance.DistanceToSelf | commoner/math/__init__.py:21-54 | a token is at distance 0 from itself |
| EditDistance.LevSymmetric | commoner/math/__init__.py:33-47 | swapping the tokens transposes the table |
| EditDistance.DistanceSymmetric | commoner/math/__init__.py:21-54 | distance(a, b) equals distance(b, a) |
| EditDistance.LevStep | commoner/math/__init__.py:37-47 | a mismatching cell is one more than its cheapest neighbour |
| EditDistance.LevSame | commoner/math/__init__.py:35-36 | a matching cell copies its diagonal neighbour |
| EditDistance.LevBounds | commoner/math/__init__.py:33-47 | a cell lies between the difference and the larger of its two prefix lengths |
| EditDistance.DistanceBounds | commoner/math/__init__.py:21-54 | `\|len(a) - len(b)\| <= distance(a, b) <= max(len(a), len(b))` |
| EditDistance.LevAdjacent | commoner/math/__init__.py:33-47 | vertically adjacent cells differ by at most one |
| EditDistance.LevAdjacentRow | commoner/math/__init__.py:33-47 | horizontally adjacent cells differ by at most one |
| EditDistance.SnocAligned | commoner/math/__init__.py:35-40 | a keep or substitute step extends a script for both prefixes |
| EditDistance.SnocDelete | commoner/math/__init__.py:39 | a delete step extends a script by one unit of cost |
| EditDistance.SnocInsert | commoner/math/__init__.py:38 | an insert step extends a script by one unit of cost |
| EditDistance.TableScript | commoner/math/__init__.py:33-47 | every cell is the cost of an actual edit script between its prefixes |
| EditDistance.ScriptCostAtLeast | commoner/math/__init__.py:33-47 | no edit script between the tokens costs less than the distance |
| EditDistance.DistanceIsLeastEditCost | commoner/math/__init__.py:21-54 | the distance is the least cost of an edit script, and some script attains it |
| EditDistance.Compose | commoner/math/__init__.py:21-54 | scripts a→b and b→c compose into a script a→c no dearer than both |
| EditDistance.DistanceTriangle | commoner/math/__init__.py:21-54 | distance(a, c) <= distance(a, b) + distance(b, c) |
| Brush.ModifierCodes | commoner/brush/__init__.py:8-18 | the modifier entries of `styles`; no contract of its own, its keys are fixed by ModifierNamesAreKeys |
| Brush.ColorCodes | commoner/brush/__init__.py:19-37 | the color entries; keys fixed by ColorNamesAreKeys |
| Brush.BgColorCodes | commoner/brush/__init__.py:38-57 | the bgColor entries; keys fixed by BgColorNamesAreKeys |
| Brush.Alias | commoner/brush/__init__.py:62-86 | the `aliases` table; what it maps is fixed by the Aliases* lemmas and AliasTargetIsStyle |
| Brush.ModifierNamesAreKeys | commoner/brush/__init__.py:8-18 | the modifier names listed, in table order, are exactly the names with modifier codes |
| Brush.ColorNamesAreKeys | commoner/brush/__init__.py:19-37 | the same for the color category |
| Brush.BgColorNamesAreKeys | commoner/brush/__init__.py:38-57 | the same for the bgColor category |
| Brush.CategoryNamesAreKeys | commoner/brush/__init__.py:7-58 | every category's listed names are exactly its keys |
| Brush.AllNamesListed | commoner/brush/__init__.py:7-58 | the table's names in iteration order: modifiers, then colors, then bgColors |
| Brush.CategoriesDisjoint | commoner/brush/__init__.py:7-58 | no modifier name is also a color or bgColor name |
| Brush.ColorsDisjoint | commoner/brush/__init__.py:19-57 | no color name is also a bgColor name |
| Brush.AliasesNotModifiers | commoner/brush/__init__.py:62-86 | no alias is a modifier name |
| Brush.AliasesNotColors | commoner/brush/__init__.py:62-86 | no alias is a color name |
| Brush.AliasesNotBgColors | commoner/brush/__init__.py:62-86 | no alias is a bgColor name |
| Brush.AliasTargetIsStyle | commoner/brush/__init__.py:62-86 | every alias names an entry of the styles table |
| Brush.Find | commoner/brush/__init__.py:101-111 | `find`: every category in table order, aliases only after all of them; no contract of its own, stated by FindResolves, FindTableName and FindAlias |
| Brush.FindIn | commoner/brush/__init__.py:105-107 | the category loop finds codes exactly when some category has the name |
| Brush.FindInStyles | commoner/brush/__init__.py:105-107 | the loop returns the codes of the first category, in table order, that has the name |
| Brush.FindResolves | commoner/brush/__init__.py:101-111 | `find` returns codes exactly for table names and aliases, and None otherwise |
| Brush.FindTableName | commoner/brush/__init__.py:105-107 | a table name resolves to its own codes |
| Brush.FindAlias | commoner/brush/__init__.py:108-110 | an alias resolves to what its target resolves to, and never to None |
| Brush.FindGray | commoner/brush/__init__.py:28-29 | `grey`, `gray` and `blackBright` all resolve to (90, 39) |
| Brush.FindBgGray | commoner/brush/__init__.py:47-49 | `bgGrey`, `bgGray` and `bgBlackBright` all resolve to (100, 49) |
| Brush.AppendEach | commoner/brush/__init__.py:116-117 | the append loop adds the names after the output so far, in order |
| Brush.AllOf | commoner/brush/__init__.py:120-136 | `all_modifiers`/`all_colors`/`all_bg_colors` list the category's names in order, and each resolves to that category's codes |
| Brush.FlatNamesSnoc | commoner/brush/__init__.py:115-117 | one more category appends its names to the list |
| Brush.AllStyles | commoner/brush/__init__.py:113-118 | `all_styles` lists every table name in table order, and each resolves |
| Brush.AllNamesResolve | commoner/brush/__init__.py:113-118 | every name `all_styles` lists is found by `find` |
| Brush.Assemble | commoner/brush/__init__.py:88-98 | `assemble`: the open sequence if given, then the close one; its meaning is AssembleDecodes |
| Brush.AssembleDecodes | commoner/brush/__init__.py:88-98 | `assemble` emits the given codes, open before close, and nothing visible |
| Brush.Paint | commoner/brush/__init__.py:202-208 | open sequence, text, close sequence; its meaning is PaintReads |
| Brush.PaintReads | commoner/brush/__init__.py:202 | open code + plain text + close code shows the text and carries exactly the two codes |
| Brush.Styled | commoner/brush/__init__.py:204-208 | a generated wrapper exists exactly for the table names, aliases excluded; a name with no wrapper is an AttributeError (see "Left out") |
| Brush.StyledReads | commoner/brush/__init__.py:208 | a wrapper shows its plain text and carries the style's open and close codes |
| Brush.SgrRed | commoner/brush/__init__.py:95-97 | the codes of red render as `ESC[31m` and `ESC[39m` |
| Brush.RedListed | commoner/brush/__init__.py:21 | `red` is a table name with codes (31, 39) |
| Brush.StyledRed | commoner/brush/__init__.py:157 | `Brush.red("hi")` is `ESC[31mhiESC[39m` |
| Brush.PrintLine | commoner/brush/__init__.py:193-202 | `print` succeeds exactly when `find` knows the style; an unknown style is a TypeError |
| Brush.PrintLineReads | commoner/brush/__init__.py:193-202 | a printed plain message shows the message and a newline, and carries exactly the style's open and close codes |
| Brush.PaintLineReads | commoner/brush/__init__.py:202 | painted plain text followed by a newline shows the text and the newline and carries the two codes |
| Brush.SetStyle | commoner/brush/__init__.py:176-184 | `set` succeeds exactly for a known style; an unknown one is a TypeError |
| Brush.SetStyleReads | commoner/brush/__init__.py:184 | `set` writes only the style's open code, invisibly |
| Brush.ResetStyle | commoner/brush/__init__.py:186-191 | the intended `reset` writes the single code 0 and nothing visible |
| Brush.ResetIsShadowed | commoner/brush/__init__.py:186-210 | a bare `Brush.reset()` raises TypeError; with an argument it paints it with (0, 0); the intended method writes `ESC[0m` |
| Brush.RainbowBackgroundCodes | commoner/brush/__init__.py:166 | the rainbow background `bgBrightBlack` resolves to (100, 49) |
| Brush.ResolveKnows | commoner/brush/__init__.py:169-173 | a palette colour resolves exactly when it is a table name or an alias |
| Brush.ResolvesGrows | commoner/brush/__init__.py:172-173 | one more character whose colour resolves keeps the loop going |
| Brush.ResolvesStops | commoner/brush/__init__.py:172-173 | a character whose colour does not resolve stops the loop |
| Brush.Pieces | commoner/brush/__init__.py:168-173 | one piece per character of the message |
| Brush.PiecesSnoc | commoner/brush/__init__.py:168-173 | the next character appends its piece in its cycled colour |
| Brush.Rainbow | commoner/brush/__init__.py:161-174 | `rainbow`'s meaning: the joined pieces, ZeroDivisionError for an empty palette, TypeError at an unknown colour; stated by RainbowShows and RainbowEmptyPalette |
| Brush.RainbowText | commoner/brush/__init__.py:161-174 | the method returns the rainbow string, or ZeroDivisionError/TypeError in the source's error cases |
| Brush.RainbowLoop | commoner/brush/__init__.py:167-174 | the enumerate loop joins the pieces, or fails with TypeError at the first colour `find` does not know |
| Brush.PieceFront | commoner/brush/__init__.py:169-173 | a piece shows just its character, with or without background |
| Brush.PieceFrontPlain | commoner/brush/__init__.py:173 | the same for a piece without background |
| Brush.PieceFrontBackground | commoner/brush/__init__.py:169 | the same for a piece with background |
| Brush.JoinedShow | commoner/brush/__init__.py:170-174 | joining pieces that each show one character shows those characters |
| Brush.PiecesShowEach | commoner/brush/__init__.py:168-173 | piece i shows message character i |
| Brush.DefaultPaletteResolves | commoner/brush/__init__.py:164 | every colour of the default palette resolves |
| Brush.RainbowShows | commoner/brush/__init__.py:161-174 | with the default palette the rainbow succeeds; on success it shows exactly the message |
| Brush.RainbowEmptyPalette | commoner/brush/__init__.py:168-173 | an empty palette gives "" for an empty message and ZeroDivisionError otherwise |
| Types.PutSpec | commoner/types/__init__.py:42-45 | assigning a key keeps keys distinct, appends a new key, and changes only that key's value |
| Types.SameKeysSameIndex | commoner/types/__init__.py:42-45 | two dicts with the same key order hold each key at the same position |
| Types.AppendIndex | commoner/types/__init__.py:42-45 | appending another key leaves a key's position alone |
| Types.FromItems | commoner/types/__init__.py:42-45 | building a dict from pairs gives distinct keys |
| Types.LastValue | commoner/types/__init__.py:42-45 | a key has a last value exactly when it occurs among the pairs |
| Types.LastValueAt | commoner/types/__init__.py:42-45 | the value of a key is that of its last occurrence |
| Types.FromItemsSpec | commoner/types/__init__.py:42-45 | keys are kept in order of first appearance, and each gets its last value |
| Types.FromItemsOfDict | commoner/types/__init__.py:85 | rebuilding from pairs with distinct keys keeps them as they are |
| Types.SwappedTwice | commoner/types/__init__.py:73 | turning the pairs round twice gives them back; keys and values trade places |
| Types.SwapKv | commoner/types/__init__.py:63-73 | `swap_kv`: the comprehension over the turned pairs; stated by SwapKvSpec and SwapKvTwice |
| Types.SwapKvSpec | commoner/types/__init__.py:63-73 | the keys of `swap_kv` are the distinct values; each value maps back to its last key |
| Types.SwapKvTwice | commoner/types/__init__.py:63-73 | with distinct values, swapping twice gives the dict back |
| Types.ReverseKeepsDistinctKeys | commoner/types/__init__.py:85 | reversed items still have distinct keys |
| Types.DictReverse | commoner/types/__init__.py:75-85 | `reverse`: the dict of the reversed items; stated by DictReverseSpec |
| Types.DictReverseSpec | commoner/types/__init__.py:75-85 | `Dict.reverse` lists the same pairs back to front; applied twice it gives the dict back |
| Types.InsertMultiset | commoner/types/__init__.py:44 | an insertion adds its element and nothing else |
| Types.SortByMultiset | commoner/types/__init__.py:44 | `sorted` returns a permutation of its input |
| Types.InsertSorted | commoner/types/__init__.py:44 | inserting into a sorted list keeps it sorted |
| Types.SortBySorted | commoner/types/__init__.py:44 | `sorted` returns an ordered list under a total preorder |
| Types.TiesWithSnoc | commoner/types/__init__.py:44 | the tied elements of a list with one more element |
| Types.InsertTies | commoner/types/__init__.py:44 | an insertion keeps equal-keyed elements in order |
| Types.SortByStable | commoner/types/__init__.py:44 | `sorted` is stable: elements with equal keys keep their relative order |
| Types.PermutationKeepsDistinctKeys | commoner/types/__init__.py:44 | a permutation of a dict's items still has distinct keys |
| Types.ByValueOrders | commoner/types/__init__.py:44 | `key=item[1]` with either `reverse` is a total preorder |
| Types.ByKeyOrders | commoner/types/__init__.py:60 | `key=item[0]` on str keys with either `reverse` is a total preorder |
| Types.TiesByValue | commoner/types/__init__.py:44 | the ties under `key=item[1]` are the items with the same value |
| Types.SortValues | commoner/types/__init__.py:31-45 | `sort_values`: `sorted` by value, then the comprehension; stated by SortValuesSpec |
| Types.SortKeys | commoner/types/__init__.py:47-61 | `sort_keys`: `sorted` by key, then the comprehension; stated by SortKeysSpec |
| Types.SortValuesSpec | commoner/types/__init__.py:31-45 | `sort_values` keeps the items; values come out ascending, or descending with `reverse`; items with equal values keep their order |
| Types.SortKeysSpec | commoner/types/__init__.py:47-61 | `sort_keys` keeps the items; keys come out ascending, or descending with `reverse` |
| Types.SortValuesExample | commoner/types/__init__.py:25-26 | `{"a": 3, "b": 2, "c": 4}` sorts to `{"b": 2, "a": 3, "c": 4}` |
| Types.SortValuesReverseExample | commoner/types/__init__.py:27-28 | with `reverse=True` it sorts to `{"c": 4, "a": 3, "b": 2}` |
| Types.ReplaceEach | commoner/types/__init__.py:254-257 | the fold of `str.replace` over a list pattern, TypeError at a non-str element; stated by the ReplaceEach* lemmas |
| Types.TextReplace | commoner/types/__init__.py:242-258 | `Text.replace`: a str or a list pattern, TypeError for anything else; stated by TextReplaceText and ReplaceEachOne |
| Types.TextReplaceText | commoner/types/__init__.py:242-258 | the loop over a list pattern, or one replace for a str, computes the fold `TextReplace` |
| Types.ReplaceEachStops | commoner/types/__init__.py:255-256 | once an element raises, later elements do not matter |
| Types.ReplaceEachConcat | commoner/types/__init__.py:255-256 | replacing by `a + b` is replacing by `a`, then by `b` |
| Types.ReplaceEachOne | commoner/types/__init__.py:254-258 | a one-element list pattern acts like that str |
| Types.ReplaceEachRemoves | commoner/types/__init__.py:254-257 | replacing a list of characters by text free of them leaves none of them |
| Types.RemovesOneMore | commoner/types/__init__.py:255-256 | one more replaced character joins the removed ones |
| Types.TextReplaceExample | commoner/types/__init__.py:110-113 | `Text("Hello, world!").replace(["Hello", "world"], "Beep")` is `"Beep, Beep!"` |
| Types.ReplaceHello | commoner/types/__init__.py:112 | the first step of that example |
| Types.ReplaceWorld | commoner/types/__init__.py:112 | the second step of that example |
| Types.ActualTitle | commoner/types/__init__.py:347-363 | `to_actual_title`'s meaning; stated by ToActualTitle, ActualTitleWords and ActualTitleIdempotent |
| Types.TitleWord | commoner/types/__init__.py:359-362 | a title word has the length of the word |
| Types.TitleWords | commoner/types/__init__.py:358-362 | one title word per word |
| Types.ToActualTitle | commoner/types/__init__.py:347-363 | the in-place loop over the words computes `ActualTitle`: IndexError at an empty word |
| Types.TitleWordShape | commoner/types/__init__.py:359-362 | a title word is non-empty and has no space |
| Types.ActualTitleWords | commoner/types/__init__.py:357-363 | splitting the title gives back the title-cased words, as many as the text had |
| Types.ActualTitleIdempotent | commoner/types/__init__.py:347-363 | title-casing a title changes nothing |
| Types.TitleWordTwice | commoner/types/__init__.py:359-362 | title-casing a word twice equals once |
| Types.ActualTitleExample | commoner/types/__init__.py:106 | `"this is a title"` becomes `"This Is a Title"` |
| Types.ExampleTitleSplit | commoner/types/__init__.py:357 | the example splits into its four words |
| Types.ExampleWordsTitled | commoner/types/__init__.py:358-362 | its words title-case to `This`, `Is`, `a`, `Title` |
| Types.TitleFour | commoner/types/__init__.py:358-362 | four words title-case position by position |
| Types.TitleThis | commoner/types/__init__.py:359-360 | the first word is capitalised even when small |
| Types.TitleIs | commoner/types/__init__.py:359-360 | a word outside `IGNORE_WORDS` is capitalised |
| Types.TitleA | commoner/types/__init__.py:361-362 | a small word after the first is lower-cased |
| Types.TitleTitle | commoner/types/__init__.py:359-360 | `title` is capitalised |
| Types.TitleSpelling | commoner/types/__init__.py:363 | the joins of the example's words |
| Types.InitialOf | commoner/types/__init__.py:379-383 | one word's initial: kept for a small word when case-sensitive, upper-cased otherwise; stated by CasedInitial and InitialsSpec |
| Types.Initials | commoner/types/__init__.py:365-384 | `to_initials`'s meaning; stated by ToInitials and InitialsSpec |
| Types.Dotted | commoner/types/__init__.py:377-384 | two characters per word |
| Types.ToInitials | commoner/types/__init__.py:365-384 | the loop computes `Initials`: IndexError at an empty word |
| Types.CasedInitial | commoner/types/__init__.py:379-383 | the cased word is empty exactly when the word is, and starts with the initial |
| Types.DottedSnoc | commoner/types/__init__.py:383 | each word appends its initial and a dot |
| Types.DottedAt | commoner/types/__init__.py:378-383 | position 2k is word k's initial and 2k+1 a dot |
| Types.InitialsSpec | commoner/types/__init__.py:365-384 | one initial and one dot per word; small words keep their first letter when case-sensitive, the rest are upper-cased |
| Types.SmallWordsAreLower | commoner/types/__init__.py:120-141 | every entry of `IGNORE_WORDS` is a non-empty lower-case word |
| Types.InitialsExample | commoner/types/__init__.py:367 | `"John Doe"` gives `"J.D."` |
| Types.ExampleInitialsSplit | commoner/types/__init__.py:376 | `"John Doe"` splits into its two words |
| Types.InitialsSpelling | commoner/types/__init__.py:376 | the join of the example's words |
| Types.ExampleInitials | commoner/types/__init__.py:377-384 | the initials of `John` and `Doe` are `"J.D."` |
| PyStr.Reverse | commoner/types/__init__.py:260-270 | `text[::-1]` holds the same length, element i being element `len - 1 - i` |
| PyStr.ReverseReverse | commoner/__init__.py:675-676 | reversing twice gives the original back |
| PyStr.ReverseMultiset | commoner/__init__.py:675-676 | reversing keeps the same elements |
| PyStr.Occurs | commoner/__init__.py:702 | `old in text` holds exactly when some window of the text equals `old` |
| PyStr.OccursTail | commoner/__init__.py:702 | an occurrence off the front is an occurrence in the tail, and conversely |
| PyStr.OccursInConcat | commoner/__init__.py:702 | an occurrence in a part is one in the whole |
| PyStr.Interleave | commoner/__init__.py:703 | `replace("", rep)` has length `len + (len + 1) * len(rep)` |
| PyStr.InterleaveSpec | commoner/__init__.py:703 | `replace("", rep)` is `rep + c` for each character c in order, then `rep`: a copy at each of the `len + 1` places |
| PyStr.InterleaveCons | commoner/__init__.py:703 | one character unfolds to a copy, the character and the rest |
| PyStr.SlotBoundStep | commoner/__init__.py:703 | a slot of the tail, moved past the first copy, still fits |
| PyStr.SlotFirst | commoner/__init__.py:703 | the first segment is a copy and the first character |
| PyStr.SlotSegmentStep | commoner/__init__.py:703 | segment i of the text is segment i - 1 of its tail |
| PyStr.SlotTailStep | commoner/__init__.py:703 | the copy after the last character is that of the tail |
| PyStr.Replace | commoner/__init__.py:703 | `str.replace`: leftmost non-overlapping occurrences, the empty pattern between every character; stated by ReplaceLength, ReplaceAbsent, ReplaceFront and ReplaceSkip |
| PyStr.ReplaceAbsent | commoner/__init__.py:703 | `replace` leaves text without the pattern unchanged |
| PyStr.Count | commoner/types/__init__.py:282-283 | `count("")` is `len + 1` |
| PyStr.CountZero | commoner/types/__init__.py:282-283 | a non-empty pattern counts zero exactly when it is not in the text |
| PyStr.CountChar | commoner/types/__init__.py:282-283 | `text.count(c)` for one character is the number of times it occurs |
| PyStr.ReplaceLength | commoner/__init__.py:703 | each replaced occurrence changes the length by `len(new) - len(old)`, and as many are replaced as `count` counts |
| PyStr.ReplaceLengthEmpty | commoner/__init__.py:703 | the same for the empty pattern |
| PyStr.ReplaceLengthPrefix | commoner/__init__.py:703 | the same step for an occurrence at the front |
| PyStr.ReplaceLengthSkip | commoner/__init__.py:703 | the same step for a kept character |
| PyStr.ReplacePrefixStep | commoner/__init__.py:703 | an occurrence at the front is replaced and counted |
| PyStr.ReplaceSkipStep | commoner/__init__.py:703 | a character that starts no occurrence is kept and not counted |
| PyStr.ReplaceCharRemoves | commoner/types/__init__.py:256 | replacing a character by text without it removes it |
| PyStr.ReplaceShowsReplacement | commoner/__init__.py:703 | when the pattern occurred, the replacement occurs in the result |
| PyStr.ReplaceKeepsOut | commoner/types/__init__.py:256 | a character in neither the text nor the replacement is not in the result |
| PyStr.InterleaveKeepsOut | commoner/types/__init__.py:256 | the same for the empty pattern |
| PyStr.MissingStart | commoner/__init__.py:702 | a pattern whose first character is absent does not occur |
| PyStr.ReplaceFront | commoner/__init__.py:703 | a pattern at the front is replaced there |
| PyStr.ReplaceSkip | commoner/__init__.py:703 | a character other than the pattern's first is kept |
| PyStr.ReplaceOnce | commoner/__init__.py:703 | one occurrence, with the first character absent elsewhere, is replaced in place |
| PyStr.OccursTrans | commoner/__init__.py:702 | an occurrence within an occurrence is an occurrence |
| PyStr.StrLeTotal | commoner/types/__init__.py:60 | any two strs are ordered one way or the other |
| PyStr.StrLeTrans | commoner/types/__init__.py:60 | str order is transitive |
| PyStr.StrLeAntisymmetric | commoner/types/__init__.py:60 | strs ordered both ways are equal |
| PyStr.Split | commoner/types/__init__.py:357 | `split(" ")` gives at least one piece, and none holds a space |
| PyStr.SplitCount | commoner/types/__init__.py:357 | one more piece than separators |
| PyStr.Join | commoner/types/__init__.py:363 | `" ".join`; stated by JoinSplit and SplitJoin |
| PyStr.JoinSplit | commoner/types/__init__.py:357-363 | joining the pieces gives the text back |
| PyStr.SplitJoin | commoner/types/__init__.py:357-363 | splitting the join of space-free words gives the words back |
| PyStr.SplitFront | commoner/types/__init__.py:357 | a separator at the front starts a new piece; any other character goes to the first piece |
| PyStr.SplitFree | commoner/types/__init__.py:357 | a word without the separator splits into itself |
| PyStr.Concat | commoner/brush/__init__.py:170 | `"".join([])` is empty |
| PyStr.ConcatAppend | commoner/brush/__init__.py:170 | joining one more part appends it |
| PyStr.Upper | commoner/types/__init__.py:360 | ASCII `upper`, character by character; stated by CaseTwice and CaseKeepsSpace |
| PyStr.Lower | commoner/types/__init__.py:362 | ASCII `lower`, character by character; stated by LowerTwice and LowerCapitalised |
| PyStr.CaseTwice | commoner/types/__init__.py:360 | upper and lower of a character are idempotent and absorb each other |
| PyStr.LowerTwice | commoner/types/__init__.py:362 | `lower` is idempotent |
| PyStr.LowerCapitalised | commoner/types/__init__.py:360 | lower-casing a capitalised word is lower-casing the word |
| PyStr.CaseKeepsSpace | commoner/types/__init__.py:357-363 | case mapping neither makes nor removes spaces |
| PyStr.DigitChar | commoner/brush/__init__.py:95-97 | a digit value renders as a decimal digit |
| PyStr.DigitValue | commoner/brush/__init__.py:95-97 | a decimal digit reads as a value 0-9 |
| PyStr.NatToDecimal | commoner/brush/__init__.py:95-97 | `f"{n}"` of a natural number is a non-empty run of digits |
| PyStr.IntToDecimal | commoner/brush/__init__.py:95-97 | `f"{n}"`, with a minus sign for a negative int; stated by IntDecimalRoundTrip |
| PyStr.ParseNatDecimal | commoner/brush/__init__.py:95-97 | reading `f"{n}"` back gives n |
| PyStr.IntDecimalRoundTrip | commoner/brush/__init__.py:95-97 | the same for negative ints, written with a minus sign |
| Ansi.IndexOf | commoner/brush/__init__.py:95-97 | the first `m` ending a sequence, or the length |
| Ansi.EscapeLength | commoner/brush/__init__.py:95-97 | an escape sequence at the front has length at least 3; there is none without ESC |
| Ansi.Strip | commoner/brush/__init__.py:95-97 | the visible text is never longer than the text |
| Ansi.DecimalIsPlain | commoner/brush/__init__.py:95-97 | a rendered int holds neither ESC nor `m` |
| Ansi.Sgr | commoner/brush/__init__.py:95-97 | `f"\033[{n}m"`; its meaning is SgrFront |
| Ansi.SgrFront | commoner/brush/__init__.py:95-97 | `\033[{n}m` is invisible and reads as the single code n |
| Ansi.EscapeFront | commoner/__init__.py:78-208 | any `ESC [ params m` sequence is invisible |
| Ansi.PlainFront | commoner/brush/__init__.py:202 | plain text is visible as itself and holds no code |
| Ansi.CharFront | commoner/brush/__init__.py:169-173 | a character other than ESC is visible and starts no code |
| Commoner.ParamsHaveNoM | commoner/__init__.py:78-208 | no style's parameters contain `m`, which ends the sequence |
| Commoner.CloseIsReset | commoner/__init__.py:210-218 | `\033[0m` is the reset code 0, and invisible |
| Commoner.ChalkStyled | commoner/__init__.py:67-208 | a Chalk wrapper: its opening code, the text, `\033[0m`; stated by ChalkStyledShows and ChalkStyledInjective |
| Commoner.ChalkStyledShows | commoner/__init__.py:67-208 | every Chalk wrapper shows exactly its plain text |
| Commoner.ChalkStyledInjective | commoner/__init__.py:67-208 | a wrapper's output determines its text |
| Commoner.Selected | commoner/__init__.py:231-254 | the if/elif chain of `Chalk.set` from a name to a style; stated by ChalkSetAccepts and the *Aliases lemmas |
| Commoner.ChalkSet | commoner/__init__.py:220-254 | `Chalk.set`: the opening code, or ValueError; stated by ChalkSetAccepts and ChalkSetMatchesWrapper |
| Commoner.ChalkSetAccepts | commoner/__init__.py:220-254 | `Chalk.set` accepts exactly its eighteen names; anything else is a ValueError |
| Commoner.ChalkSetMatchesWrapper | commoner/__init__.py:231-252 | `Chalk.set(name)` writes the opening code of the wrapper with that name |
| Commoner.BoldAliases | commoner/__init__.py:231-232 | `b` is `bold` |
| Commoner.ItalicAliases | commoner/__init__.py:233-234 | `italics` and `i` are `italic` |
| Commoner.UnderlineAliases | commoner/__init__.py:235-236 | `underlined`, `underl` and `ul` are `underline` |
| Commoner.MagentaAliases | commoner/__init__.py:251-252 | `purple` is `magenta` |
| Commoner.ReverseValue | commoner/__init__.py:665-680 | None exactly for what is not a list, str or dict; a str or list comes back reversed |
| Commoner.ReverseDict | commoner/__init__.py:677-678 | a dict lists its pairs back to front |
| Commoner.ReverseValueTwice | commoner/__init__.py:665-680 | reversing any str, list or dict twice gives it back |
| Commoner.Halts | commoner/__init__.py:701-703 | the while loop ends: some number of rounds leaves no occurrence |
| Commoner.ReplaceAll | commoner/__init__.py:683-706 | `replace_all`'s outcome: returns, raises TypeError, or never returns; stated by ReplaceAllRemoves, ReplaceAllList and ReplaceAllEmptyLoops |
| Commoner.ReplaceAllEach | commoner/__init__.py:698-700 | the for loop over a list pattern as a fold of outcomes; stated by the ReplaceAllEach* lemmas |
| Commoner.IterateFixed | commoner/__init__.py:702-703 | further rounds leave a fixed point alone |
| Commoner.IterateSettled | commoner/__init__.py:702-703 | once a round changes nothing, later rounds change nothing |
| Commoner.IterateKeeps | commoner/__init__.py:702-703 | a property every round keeps holds after any number of rounds |
| Commoner.RewriteSettled | commoner/__init__.py:702-703 | once the pattern is gone, further rounds change nothing |
| Commoner.RewriteStep | commoner/__init__.py:702-703 | k rounds are one replace followed by k - 1 rounds |
| Commoner.Settled | commoner/__init__.py:701-703 | the text the while loop stops at holds no occurrence |
| Commoner.SettledAt | commoner/__init__.py:701-703 | the loop stops at the first round count without an occurrence |
| Commoner.ReplaceAllEachConcat | commoner/__init__.py:698-700 | a list `a + b` is `a`, then `b` applied to its result |
| Commoner.ReplaceAllEachStops | commoner/__init__.py:698-700 | an element that raises or loops ends the list |
| Commoner.ReplaceAllEachSnoc | commoner/__init__.py:698-700 | one more element runs on what the previous ones returned |
| Commoner.ReplaceAllAbsent | commoner/__init__.py:701-703 | text without the pattern comes back unchanged |
| Commoner.ReplaceAllRemoves | commoner/__init__.py:696-703 | a str pattern returns exactly when repeated replacement ends, and then the pattern is gone |
| Commoner.ReplaceAllOneChar | commoner/__init__.py:701-703 | a character absent from the replacement is gone after one round |
| Commoner.ReplaceAllEmptyLoops | commoner/__init__.py:702-703 | an empty pattern is always `in` the text, so the call never returns |
| Commoner.FeedsEveryRound | commoner/__init__.py:702-703 | a replacement containing the pattern keeps it in every round |
| Commoner.ReplaceAllFeedsItself | commoner/__init__.py:702-703 | such a replacement applied to text with the pattern never returns |
| Commoner.ReplaceAllList | commoner/__init__.py:698-700 | `[x]` acts like x, a nested list like the list, and `[]` returns the text |
| Commoner.RepeatReplace | commoner/__init__.py:701-703 | the while loop stops at the settled text, without the pattern |
| Commoner.ReplaceAllText | commoner/__init__.py:683-706 | the recursive method returns or raises what `replace_all` means; a str pattern leaves no occurrence; any other type is a TypeError |
| Commoner.ReplaceAllEachText | commoner/__init__.py:698-700 | the for loop over a list returns or raises what the fold means |

## Left out

- Printing is not performed. `Brush.set`, `Brush.reset`, `Brush.print` and `Chalk.set` are modelled by the string they would print. `Chalk.reset` is modelled by the constant `"\033[0m"` it prints.
- `distance`'s display: the `display` branch only prints the table, so `Distance` ignores it.
- `distance`'s return type: the source keeps the table in a numpy float array and returns a float. The model's table holds ints with the same whole values.
- Calls to `random`, `time`, the file system and JSON/CSV are not part of this model. Nor are `Console`, `Wait`, `Shout`, `println`/`printsln`/`printx`/`typewriter` and `random_string`.
- `commoner/classes.py` is not part of this model.
- `Text`'s dunder methods are one-line delegations to str, and so are not modelled.
- `Text.to_snake`, `to_camel`, `to_pascal` and `to_kebab` are not modelled. They depend on `string.punctuation` and `str.title`, which lie outside the core.
- `Text.count()` without an argument is not modelled, because it calls `sort_dict_keys`, which is not defined in the source.
- `upper`, `lower` and `str` ordering cover ASCII letters and code-point order only. There is no Unicode case mapping.
- `Dict.sort_values`: values are `int`, and `sort_keys` keys are `str`. Other comparable types are not modelled.
- A dict's keys are not required to be hashable. `swap_kv` on unhashable values is not modelled.
- Python's `type(x) == list` and `isinstance` are modelled by the `Value` constructors, so subclasses of list, str and dict are not distinguished.
- `Brush.rainbow` looks colours up one character at a time. The model resolves the whole palette up front, which gives the same result because `find` is pure.
- `Brush.rainbow` with `background` equal to something other than `True` is modelled as `False`.
- Brush.Styled: only the style wrappers are modelled as attribute lookups. `rainbow`, `set`, `print` and `generate_dynamic_functions` are separate functions of the model, so `Styled` answers AttributeError for those names although Python finds the methods.
- Default arguments are required parameters: `Brush.print`'s `style="white"` (`commoner/brush/__init__.py:194`), `to_initials`' `case_sensitive=True` (`commoner/types/__init__.py:365`) and `sort_values`/`sort_keys`' `reverse=False` (`commoner/types/__init__.py:31`, `47`). A call without the argument is the call with the default.
- `generate_dynamic_functions` installs attributes with `setattr`. That metaprogramming is modelled as `Styled(name, text)` over the table names.
- The generated lambda's overridable `n=name` default argument is not modelled.
- `Commoner.ReplaceAllText`: a call to `replace_all` that never returns cannot be run. The method requires an outcome other than `Loops`. The ghost function `ReplaceAll` says when the outcome is `Loops`, and `ReplaceAllEmptyLoops` and `ReplaceAllFeedsItself` show it happens.

## Findings

| source | as written | input that shows it | evidently intended | confidence | as-written member | corrected member |
|---|---|---|---|---|---|---|
| commoner/brush/__init__.py:186-210 | `generate_dynamic_functions` installs a wrapper for every name in `styles`, including `reset`, and it runs after the class body, so the generated `reset(string)` replaces the static `Brush.reset()` | `Brush.reset()` raises TypeError (missing argument) instead of writing `\033[0m` | `Brush.reset()` writes the close code of `reset`, `\033[0m` | not executed | Brush.ResetIsShadowed | Brush.ResetStyle |
