/**
 * commoner.math.distance: the Levenshtein distance of two sequences, computed
 * by filling an (m+1) x (n+1) table row by row.
 *
 * `Lev(s, t, i, j)` is the recurrence the table follows, over the prefixes
 * `s[..i]` and `t[..j]`; `Distance` is the method that fills the table.
 * Edit scripts (`Edit`, `Transforms`, `Cost`) give the recurrence an
 * independent meaning: `Lev` is the least cost of a script turning one
 * prefix into the other.
 */
module EditDistance {

  function Min(a: int, b: int): int {
    if a <= b then a else b
  }

  function Min3(a: int, b: int, c: int): int {
    Min(a, Min(b, c))
  }

  /**
   * The `if/elif/else` chain that picks among the left (`a`), upper (`b`)
   * and diagonal (`c`) neighbours: it always returns one of them, and one
   * that is no larger than the other two.
   */
  function Cheapest(a: int, b: int, c: int): (r: int)
    ensures r <= a && r <= b && r <= c
    ensures r == a || r == b || r == c
    ensures r == Min3(a, b, c)
  {
    if a <= b && a <= c then a
    else if b <= a && b <= c then b
    else c
  }

  /** The table's cell (i, j): the edit distance of `s[..i]` and `t[..j]`. */
  function Lev<T(==)>(s: seq<T>, t: seq<T>, i: nat, j: nat): nat
    requires i <= |s| && j <= |t|
    decreases i + j
  {
    if i == 0 then j
    else if j == 0 then i
    else if s[i - 1] == t[j - 1] then Lev(s, t, i - 1, j - 1)
    else 1 + Min3(Lev(s, t, i, j - 1), Lev(s, t, i - 1, j), Lev(s, t, i - 1, j - 1))
  }

  /**
   * `distance(token1, token2, display)`. The table is a fresh 2-D array of
   * integers (the source keeps it in a numpy float array; every value is a
   * whole edit count). `display` only prints the table, so the result does
   * not depend on it.
   */
  method Distance<T(==)>(token1: seq<T>, token2: seq<T>, display: bool) returns (r: int)
    ensures r == Lev(token1, token2, |token1|, |token2|)
  {
    var m, n := |token1|, |token2|;
    var distances := new int[m + 1, n + 1];

    for t1 := 0 to m + 1
      invariant forall i :: 0 <= i < t1 ==> distances[i, 0] == i
    {
      distances[t1, 0] := t1;
    }

    for t2 := 0 to n + 1
      invariant forall i :: 0 <= i <= m ==> distances[i, 0] == i
      invariant forall j :: 0 <= j < t2 ==> distances[0, j] == j
    {
      distances[0, t2] := t2;
    }

    var a, b, c := 0, 0, 0;

    for t1 := 1 to m + 1
      invariant forall i, j {:trigger distances[i, j]} :: 0 <= i < t1 && 0 <= j <= n ==> distances[i, j] == Lev(token1, token2, i, j)
      invariant forall i :: t1 <= i <= m ==> distances[i, 0] == i
    {
      assert distances[t1, 0] == Lev(token1, token2, t1, 0);
      for t2 := 1 to n + 1
        invariant forall i, j {:trigger distances[i, j]} :: 0 <= i <= t1 && 0 <= j <= n && (i < t1 || j < t2) ==> distances[i, j] == Lev(token1, token2, i, j)
        invariant forall i :: t1 < i <= m ==> distances[i, 0] == i
      {
        ghost var cell := Lev(token1, token2, t1, t2);
        if token1[t1 - 1] == token2[t2 - 1] {
          assert cell == Lev(token1, token2, t1 - 1, t2 - 1);
          distances[t1, t2] := distances[t1 - 1, t2 - 1];
        } else {
          a := distances[t1, t2 - 1];
          b := distances[t1 - 1, t2];
          c := distances[t1 - 1, t2 - 1];
          assert cell == 1 + Min3(a, b, c);
          distances[t1, t2] := Cheapest(a, b, c) + 1;
        }
        assert distances[t1, t2] == cell;
      }
    }
    r := distances[m, n];
  }

  // ---------------------------------------------------------------------------
  // What the recurrence promises
  // ---------------------------------------------------------------------------

  function Max(a: int, b: int): int {
    if a >= b then a else b
  }

  /** The distance of two whole sequences, the cell `distance` returns. */
  function Levenshtein<T(==)>(a: seq<T>, b: seq<T>): nat {
    Lev(a, b, |a|, |b|)
  }

  /** The table's border: row 0 holds 0..n and column 0 holds 0..m. */
  lemma Border<T>(s: seq<T>, t: seq<T>)
    ensures forall i :: 0 <= i <= |s| ==> Lev(s, t, i, 0) == i
    ensures forall j :: 0 <= j <= |t| ==> Lev(s, t, 0, j) == j
  {
  }

  /** A cell depends only on the prefixes it describes. */
  lemma {:induction false} LevPrefix<T>(s: seq<T>, t: seq<T>, s': seq<T>, t': seq<T>, i: nat, j: nat)
    requires i <= |s| && i <= |s'| && s[..i] == s'[..i]
    requires j <= |t| && j <= |t'| && t[..j] == t'[..j]
    ensures Lev(s, t, i, j) == Lev(s', t', i, j)
    decreases i + j
  {
    if i > 0 && j > 0 {
      assert s[i - 1] == s[..i][i - 1] == s'[i - 1];
      assert t[j - 1] == t[..j][j - 1] == t'[j - 1];
      assert s[..i - 1] == s[..i][..i - 1];
      assert s'[..i - 1] == s'[..i][..i - 1];
      assert t[..j - 1] == t[..j][..j - 1];
      assert t'[..j - 1] == t'[..j][..j - 1];
      LevPrefix(s, t, s', t', i - 1, j - 1);
      LevPrefix(s, t, s', t', i, j - 1);
      LevPrefix(s, t, s', t', i - 1, j);
    }
  }

  /** Cell (i, j) is the distance of the prefixes `s[..i]` and `t[..j]`. */
  lemma CellIsPrefixDistance<T>(s: seq<T>, t: seq<T>, i: nat, j: nat)
    requires i <= |s| && j <= |t|
    ensures Lev(s, t, i, j) == Levenshtein(s[..i], t[..j])
  {
    LevPrefix(s, t, s[..i], t[..j], i, j);
  }

  /** `distance(s, "") == len(s)` and `distance("", s) == len(s)`. */
  lemma DistanceToEmpty<T>(s: seq<T>)
    ensures Levenshtein(s, []) == |s|
    ensures Levenshtein([], s) == |s|
  {
  }

  /** `distance(s, s) == 0`. */
  lemma {:induction false} LevSelf<T>(s: seq<T>, i: nat)
    requires i <= |s|
    ensures Lev(s, s, i, i) == 0
  {
    if i > 0 {
      LevSelf(s, i - 1);
    }
  }

  lemma DistanceToSelf<T>(s: seq<T>)
    ensures Levenshtein(s, s) == 0
  {
    LevSelf(s, |s|);
  }

  /** The table of (t, s) is the transpose of the table of (s, t). */
  lemma {:induction false} LevSymmetric<T>(s: seq<T>, t: seq<T>, i: nat, j: nat)
    requires i <= |s| && j <= |t|
    ensures Lev(s, t, i, j) == Lev(t, s, j, i)
    decreases i + j
  {
    if i == 0 || j == 0 {
    } else if s[i - 1] == t[j - 1] {
      LevSymmetric(s, t, i - 1, j - 1);
      LevSame(s, t, i, j);
      LevSame(t, s, j, i);
    } else {
      LevSymmetric(s, t, i - 1, j - 1);
      LevSymmetric(s, t, i, j - 1);
      LevSymmetric(s, t, i - 1, j);
      LevStep(s, t, i, j);
      LevStep(t, s, j, i);
      var left, up, diagonal := Lev(s, t, i, j - 1), Lev(s, t, i - 1, j), Lev(s, t, i - 1, j - 1);
      assert Min3(up, left, diagonal) == Min3(left, up, diagonal);
    }
  }

  /** A cell whose last elements differ is one more than its cheapest neighbour. */
  lemma LevStep<T>(s: seq<T>, t: seq<T>, i: nat, j: nat)
    requires 0 < i <= |s| && 0 < j <= |t| && s[i - 1] != t[j - 1]
    ensures Lev(s, t, i, j) == 1 + Min3(Lev(s, t, i, j - 1), Lev(s, t, i - 1, j), Lev(s, t, i - 1, j - 1))
  {
  }

  /** A cell whose last elements agree is its diagonal neighbour. */
  lemma LevSame<T>(s: seq<T>, t: seq<T>, i: nat, j: nat)
    requires 0 < i <= |s| && 0 < j <= |t| && s[i - 1] == t[j - 1]
    ensures Lev(s, t, i, j) == Lev(s, t, i - 1, j - 1)
  {
  }

  /** `distance(a, b) == distance(b, a)`. */
  lemma DistanceSymmetric<T>(a: seq<T>, b: seq<T>)
    ensures Levenshtein(a, b) == Levenshtein(b, a)
  {
    LevSymmetric(a, b, |a|, |b|);
  }

  /** Every cell lies between the difference and the larger of its prefix lengths. */
  lemma {:induction false} LevBounds<T>(s: seq<T>, t: seq<T>, i: nat, j: nat)
    requires i <= |s| && j <= |t|
    ensures Lev(s, t, i, j) <= Max(i, j)
    ensures Lev(s, t, i, j) >= i - j && Lev(s, t, i, j) >= j - i
    decreases i + j
  {
    if i > 0 && j > 0 {
      LevBounds(s, t, i - 1, j - 1);
      if s[i - 1] != t[j - 1] {
        LevBounds(s, t, i, j - 1);
        LevBounds(s, t, i - 1, j);
      }
    }
  }

  /** `abs(len(a) - len(b)) <= distance(a, b) <= max(len(a), len(b))`. */
  lemma DistanceBounds<T>(a: seq<T>, b: seq<T>)
    ensures Levenshtein(a, b) <= Max(|a|, |b|)
    ensures Levenshtein(a, b) >= |a| - |b| && Levenshtein(a, b) >= |b| - |a|
  {
    LevBounds(a, b, |a|, |b|);
  }

  /** Neighbouring cells in a column differ by at most one. */
  lemma {:induction false} LevAdjacent<T>(s: seq<T>, t: seq<T>, i: nat, j: nat)
    requires i < |s| && j <= |t|
    ensures Lev(s, t, i, j) <= Lev(s, t, i + 1, j) + 1
    ensures Lev(s, t, i + 1, j) <= Lev(s, t, i, j) + 1
    decreases i + j
  {
    if j == 0 {
    } else if i == 0 {
      LevBounds(s, t, 1, j);
      LevBounds(s, t, 0, j - 1);
    } else {
      // The same two facts one column to the left, in the transposed table.
      LevAdjacent(t, s, j - 1, i);
      LevSymmetric(s, t, i, j);
      LevSymmetric(s, t, i, j - 1);
      LevAdjacent(s, t, i, j - 1);
      LevAdjacentStep(s, t, i, j);
    }
  }

  /** Column adjacency at (i, j) from row adjacency at row i and column adjacency one column to the left. */
  lemma LevAdjacentStep<T>(s: seq<T>, t: seq<T>, i: nat, j: nat)
    requires i < |s| && 0 < j <= |t|
    requires Lev(s, t, i, j) <= Lev(s, t, i, j - 1) + 1 && Lev(s, t, i, j - 1) <= Lev(s, t, i, j) + 1
    requires Lev(s, t, i, j - 1) <= Lev(s, t, i + 1, j - 1) + 1 && Lev(s, t, i + 1, j - 1) <= Lev(s, t, i, j - 1) + 1
    ensures Lev(s, t, i, j) <= Lev(s, t, i + 1, j) + 1
    ensures Lev(s, t, i + 1, j) <= Lev(s, t, i, j) + 1
  {
    if s[i] == t[j - 1] {
      LevSame(s, t, i + 1, j);
    } else {
      LevStep(s, t, i + 1, j);
    }
    CellStep(s[i] == t[j - 1], Lev(s, t, i + 1, j), Lev(s, t, i + 1, j - 1), Lev(s, t, i, j), Lev(s, t, i, j - 1));
  }

  /**
   * The arithmetic of one cell: a cell computed from neighbours `left`, `up`
   * and `diagonal` that are within one of each other is within one of `up`.
   */
  lemma CellStep(same: bool, cell: int, left: int, up: int, diagonal: int)
    requires cell == if same then diagonal else 1 + Min3(left, up, diagonal)
    requires up <= diagonal + 1 && diagonal <= up + 1
    requires left <= diagonal + 1 && diagonal <= left + 1
    ensures up <= cell + 1 && cell <= up + 1
  {
  }

  /** Neighbouring cells in a row differ by at most one. */
  lemma LevAdjacentRow<T>(s: seq<T>, t: seq<T>, i: nat, j: nat)
    requires i <= |s| && j < |t|
    ensures Lev(s, t, i, j) <= Lev(s, t, i, j + 1) + 1
    ensures Lev(s, t, i, j + 1) <= Lev(s, t, i, j) + 1
  {
    LevAdjacent(t, s, j, i);
    LevSymmetric(s, t, i, j);
    LevSymmetric(s, t, i, j + 1);
  }

  // ---------------------------------------------------------------------------
  // Edit scripts: the meaning of the table
  // ---------------------------------------------------------------------------

  /** One step of an edit script, read left to right over the source. */
  datatype Edit<T> = Keep | Insert(x: T) | Delete | Substitute(x: T)

  function EditCost<T>(e: Edit<T>): nat {
    if e.Keep? then 0 else 1
  }

  /** The number of insertions, deletions and substitutions in a script. */
  function Cost<T>(script: seq<Edit<T>>): nat {
    if script == [] then 0 else Cost(script[..|script| - 1]) + EditCost(script[|script| - 1])
  }

  /** `script` turns `a` into `b` (stated from the last step backwards). */
  predicate Transforms<T(==)>(script: seq<Edit<T>>, a: seq<T>, b: seq<T>)
    decreases |script|
  {
    if script == [] then a == [] && b == []
    else
      var rest := script[..|script| - 1];
      match script[|script| - 1]
      case Keep =>
        a != [] && b != [] && a[|a| - 1] == b[|b| - 1] && Transforms(rest, a[..|a| - 1], b[..|b| - 1])
      case Substitute(x) =>
        a != [] && b != [] && b[|b| - 1] == x && Transforms(rest, a[..|a| - 1], b[..|b| - 1])
      case Delete =>
        a != [] && Transforms(rest, a[..|a| - 1], b)
      case Insert(x) =>
        b != [] && b[|b| - 1] == x && Transforms(rest, a, b[..|b| - 1])
  }

  /** Extending a script by a step that keeps or rewrites the last element. */
  lemma SnocAligned<T>(prev: seq<Edit<T>>, e: Edit<T>, a: seq<T>, b: seq<T>)
    requires a != [] && b != [] && Transforms(prev, a[..|a| - 1], b[..|b| - 1])
    requires (e == Keep && a[|a| - 1] == b[|b| - 1]) || e == Substitute(b[|b| - 1])
    ensures Transforms(prev + [e], a, b)
    ensures Cost(prev + [e]) == Cost(prev) + EditCost(e)
  {
    assert (prev + [e])[..|prev|] == prev;
  }

  /** Extending a script by deleting the last element of the source. */
  lemma SnocDelete<T>(prev: seq<Edit<T>>, a: seq<T>, b: seq<T>)
    requires a != [] && Transforms(prev, a[..|a| - 1], b)
    ensures Transforms(prev + [Delete], a, b)
    ensures Cost(prev + [Delete]) == Cost(prev) + 1
  {
    assert (prev + [Delete])[..|prev|] == prev;
  }

  /** Extending a script by inserting the last element of the target. */
  lemma SnocInsert<T>(prev: seq<Edit<T>>, a: seq<T>, b: seq<T>)
    requires b != [] && Transforms(prev, a, b[..|b| - 1])
    ensures Transforms(prev + [Insert(b[|b| - 1])], a, b)
    ensures Cost(prev + [Insert(b[|b| - 1])]) == Cost(prev) + 1
  {
    assert (prev + [Insert(b[|b| - 1])])[..|prev|] == prev;
  }

  /**
   * The script the table describes: following the choice each cell makes
   * from cell (i, j) back to cell (0, 0) gives a script that turns `s[..i]`
   * into `t[..j]` and costs exactly the cell.
   */
  lemma {:induction false} TableScript<T>(s: seq<T>, t: seq<T>, i: nat, j: nat) returns (r: seq<Edit<T>>)
    requires i <= |s| && j <= |t|
    ensures Transforms(r, s[..i], t[..j])
    ensures Cost(r) == Lev(s, t, i, j)
    decreases i + j
  {
    var a, b := s[..i], t[..j];
    assert i > 0 ==> a[..i - 1] == s[..i - 1];
    assert j > 0 ==> b[..j - 1] == t[..j - 1];
    if i == 0 && j == 0 {
      r := [];
    } else if i == 0 {
      var prev := TableScript(s, t, 0, j - 1);
      SnocInsert(prev, a, b);
      r := prev + [Insert(t[j - 1])];
    } else if j == 0 {
      var prev := TableScript(s, t, i - 1, 0);
      SnocDelete(prev, a, b);
      r := prev + [Delete];
    } else if s[i - 1] == t[j - 1] {
      var prev := TableScript(s, t, i - 1, j - 1);
      SnocAligned(prev, Keep, a, b);
      r := prev + [Keep];
    } else {
      var left, up, diag := Lev(s, t, i, j - 1), Lev(s, t, i - 1, j), Lev(s, t, i - 1, j - 1);
      if left <= up && left <= diag {
        var prev := TableScript(s, t, i, j - 1);
        SnocInsert(prev, a, b);
        r := prev + [Insert(t[j - 1])];
      } else if up <= diag {
        var prev := TableScript(s, t, i - 1, j);
        SnocDelete(prev, a, b);
        r := prev + [Delete];
      } else {
        var prev := TableScript(s, t, i - 1, j - 1);
        SnocAligned(prev, Substitute(t[j - 1]), a, b);
        r := prev + [Substitute(t[j - 1])];
      }
    }
  }

  /** No script turning `a` into `b` is cheaper than the distance. */
  lemma {:induction false} ScriptCostAtLeast<T>(script: seq<Edit<T>>, a: seq<T>, b: seq<T>)
    requires Transforms(script, a, b)
    ensures Cost(script) >= Levenshtein(a, b)
    decreases |script|
  {
    if script != [] {
      var rest := script[..|script| - 1];
      match script[|script| - 1]
      case Keep =>
        ScriptCostAtLeast(rest, a[..|a| - 1], b[..|b| - 1]);
        DiagonalStepCost(script, a, b);
      case Substitute(x) =>
        ScriptCostAtLeast(rest, a[..|a| - 1], b[..|b| - 1]);
        DiagonalStepCost(script, a, b);
      case Delete =>
        ScriptCostAtLeast(rest, a[..|a| - 1], b);
        DeleteStepCost(script, a, b);
      case Insert(x) =>
        ScriptCostAtLeast(rest, a, b[..|b| - 1]);
        InsertStepCost(script, a, b);
    }
  }

  /** A last step that keeps or substitutes costs at least what the diagonal cell adds. */
  lemma DiagonalStepCost<T>(script: seq<Edit<T>>, a: seq<T>, b: seq<T>)
    requires script != [] && (script[|script| - 1].Keep? || script[|script| - 1].Substitute?)
    requires a != [] && b != []
    requires script[|script| - 1].Keep? ==> a[|a| - 1] == b[|b| - 1]
    requires Cost(script[..|script| - 1]) >= Levenshtein(a[..|a| - 1], b[..|b| - 1])
    ensures Cost(script) >= Levenshtein(a, b)
  {
    var a', b' := a[..|a| - 1], b[..|b| - 1];
    assert Cost(script) == Cost(script[..|script| - 1]) + EditCost(script[|script| - 1]);
    LevPrefix(a', b', a, b, |a'|, |b'|);
    if a[|a| - 1] == b[|b| - 1] {
      LevSame(a, b, |a|, |b|);
    } else {
      LevStep(a, b, |a|, |b|);
      assert Cost(script) == Cost(script[..|script| - 1]) + 1;
    }
  }

  /** A last step that deletes costs at least what the upper cell adds. */
  lemma DeleteStepCost<T>(script: seq<Edit<T>>, a: seq<T>, b: seq<T>)
    requires script != [] && script[|script| - 1].Delete?
    requires a != []
    requires Cost(script[..|script| - 1]) >= Levenshtein(a[..|a| - 1], b)
    ensures Cost(script) >= Levenshtein(a, b)
  {
    var a' := a[..|a| - 1];
    assert Cost(script) == Cost(script[..|script| - 1]) + 1;
    LevPrefix(a', b, a, b, |a'|, |b|);
    LevAdjacent(a, b, |a'|, |b|);
  }

  /** A last step that inserts costs at least what the left cell adds. */
  lemma InsertStepCost<T>(script: seq<Edit<T>>, a: seq<T>, b: seq<T>)
    requires script != [] && script[|script| - 1].Insert?
    requires b != []
    requires Cost(script[..|script| - 1]) >= Levenshtein(a, b[..|b| - 1])
    ensures Cost(script) >= Levenshtein(a, b)
  {
    var b' := b[..|b| - 1];
    assert Cost(script) == Cost(script[..|script| - 1]) + 1;
    LevPrefix(a, b', a, b, |a|, |b'|);
    LevAdjacentRow(a, b, |a|, |b'|);
  }

  /**
   * The recurrence computes the Levenshtein distance: some script turning
   * `a` into `b` costs exactly `Levenshtein(a, b)`, and none costs less.
   */
  lemma DistanceIsLeastEditCost<T>(a: seq<T>, b: seq<T>)
    ensures exists script :: Transforms(script, a, b) && Cost(script) == Levenshtein(a, b)
    ensures forall script :: Transforms(script, a, b) ==> Cost(script) >= Levenshtein(a, b)
  {
    var r := TableScript(a, b, |a|, |b|);
    assert a[..|a|] == a && b[..|b|] == b;
    forall script | Transforms(script, a, b) ensures Cost(script) >= Levenshtein(a, b) {
      ScriptCostAtLeast(script, a, b);
    }
  }

  /**
   * Running one script after another can be done by a single script that
   * costs no more than the two together.
   */
  lemma {:induction false} Compose<T>(sc1: seq<Edit<T>>, sc2: seq<Edit<T>>, a: seq<T>, b: seq<T>, c: seq<T>)
    returns (sc3: seq<Edit<T>>)
    requires Transforms(sc1, a, b) && Transforms(sc2, b, c)
    ensures Transforms(sc3, a, c)
    ensures Cost(sc3) <= Cost(sc1) + Cost(sc2)
    decreases |sc1| + |sc2|
  {
    if sc1 == [] {
      sc3 := sc2;
    } else if sc2 == [] {
      sc3 := sc1;
    } else {
      var rest1, o1 := sc1[..|sc1| - 1], sc1[|sc1| - 1];
      var rest2, o2 := sc2[..|sc2| - 1], sc2[|sc2| - 1];
      if o2.Insert? {
        var c' := c[..|c| - 1];
        var prev := Compose(sc1, rest2, a, b, c');
        SnocInsert(prev, a, c);
        sc3 := prev + [Insert(c[|c| - 1])];
      } else if o1.Delete? {
        var a' := a[..|a| - 1];
        var prev := Compose(rest1, sc2, a', b, c);
        SnocDelete(prev, a, c);
        sc3 := prev + [Delete];
      } else if o1.Insert? {
        var b' := b[..|b| - 1];
        if o2.Delete? {
          sc3 := Compose(rest1, rest2, a, b', c);
        } else {
          var c' := c[..|c| - 1];
          var prev := Compose(rest1, rest2, a, b', c');
          SnocInsert(prev, a, c);
          sc3 := prev + [Insert(c[|c| - 1])];
        }
      } else {
        var a', b' := a[..|a| - 1], b[..|b| - 1];
        if o2.Delete? {
          var prev := Compose(rest1, rest2, a', b', c);
          SnocDelete(prev, a, c);
          sc3 := prev + [Delete];
        } else {
          var c' := c[..|c| - 1];
          var prev := Compose(rest1, rest2, a', b', c');
          var e: Edit<T> := if o1.Keep? && o2.Keep? then Keep else Substitute(c[|c| - 1]);
          SnocAligned(prev, e, a, c);
          sc3 := prev + [e];
        }
      }
    }
  }

  /** `distance(a, c) <= distance(a, b) + distance(b, c)`. */
  lemma DistanceTriangle<T>(a: seq<T>, b: seq<T>, c: seq<T>)
    ensures Levenshtein(a, c) <= Levenshtein(a, b) + Levenshtein(b, c)
  {
    var r1 := TableScript(a, b, |a|, |b|);
    var r2 := TableScript(b, c, |b|, |c|);
    assert a[..|a|] == a && b[..|b|] == b && c[..|c|] == c;
    var r3 := Compose(r1, r2, a, b, c);
    ScriptCostAtLeast(r3, a, c);
  }
}
