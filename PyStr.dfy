/**
 * The parts of Python's built-in `str` (and list slicing) that the commoner
 * core relies on, as pure functions over `seq<char>`:
 * `s[::-1]`, `sub in s`, `str.replace`, `str.count`, `str.split(" ")`,
 * `" ".join`, `"".join`, ASCII `upper`/`lower`, and `str(int)` / `f"{n}"`.
 * Also the Option / Result / Error values the model uses for `None` and for
 * the exceptions the source raises.
 */
module PyStr {

  datatype Option<T> = None | Some(value: T)

  /** The Python exceptions that the modelled code can raise. */
  datatype Error = TypeError | ValueError | IndexError | ZeroDivisionError | AttributeError

  datatype Result<T> = Ok(value: T) | Err(error: Error)

  /**
   * A Python object as far as the core inspects its type: a str, a list, a
   * dict (its items in insertion order) or anything else.
   */
  datatype Value = Str(s: string) | List(items: seq<Value>) | Dict(pairs: seq<(Value, Value)>) | Other

  // ---------------------------------------------------------------------------
  // Slicing: s[::-1]
  // ---------------------------------------------------------------------------

  /** `s[::-1]` on a list or a str. */
  function Reverse<T>(s: seq<T>): (r: seq<T>)
    ensures |r| == |s|
    ensures forall i :: 0 <= i < |s| ==> r[i] == s[|s| - 1 - i]
  {
    if s == [] then [] else Reverse(s[1..]) + [s[0]]
  }

  /** Reversing twice gives back the original sequence. */
  lemma ReverseReverse<T>(s: seq<T>)
    ensures Reverse(Reverse(s)) == s
  {
    var r := Reverse(Reverse(s));
    assert |r| == |s|;
    forall i | 0 <= i < |s| ensures r[i] == s[i] {
      assert r[i] == Reverse(s)[|s| - 1 - i];
    }
  }

  /** Reversing preserves the multiset of elements. */
  lemma {:induction false} ReverseMultiset<T>(s: seq<T>)
    ensures multiset(Reverse(s)) == multiset(s)
  {
    if s != [] {
      ReverseMultiset(s[1..]);
      assert s == [s[0]] + s[1..];
    }
  }

  // ---------------------------------------------------------------------------
  // Substring search: `sub in s`
  // ---------------------------------------------------------------------------

  predicate IsPrefix<T(==)>(p: seq<T>, s: seq<T>) {
    |p| <= |s| && s[..|p|] == p
  }

  /** `sub` sits in `s` at index `i`. */
  predicate At<T(==)>(sub: seq<T>, s: seq<T>, i: int) {
    0 <= i && i + |sub| <= |s| && s[i..i + |sub|] == sub
  }

  /** Python's `sub in s`: some window of `s` equals `sub`. */
  function Occurs<T(==)>(sub: seq<T>, s: seq<T>): (r: bool)
    ensures r <==> exists i :: At(sub, s, i)
  {
    if IsPrefix(sub, s) then
      assert At(sub, s, 0);
      true
    else if s == [] then false
    else
      var r := Occurs(sub, s[1..]);
      if r then
        var i :| At(sub, s[1..], i);
        assert s[1..][i..i + |sub|] == s[i + 1..i + 1 + |sub|];
        assert At(sub, s, i + 1);
        r
      else
        assert !At(sub, s, 0);
        assert forall i :: 1 <= i && At(sub, s, i) ==> At(sub, s[1..], i - 1) by {
          forall i | 1 <= i && At(sub, s, i) ensures At(sub, s[1..], i - 1) {
            assert s[1..][i - 1..i - 1 + |sub|] == s[i..i + |sub|];
          }
        }
        r
  }

  /** An occurrence in the tail is an occurrence in the whole, and conversely
      when the text does not start with the pattern. */
  lemma OccursTail<T>(sub: seq<T>, s: seq<T>)
    requires s != []
    ensures Occurs(sub, s[1..]) ==> Occurs(sub, s)
    ensures Occurs(sub, s) && !IsPrefix(sub, s) ==> Occurs(sub, s[1..])
  {
  }

  /** An occurrence inside a part is an occurrence in the whole. */
  lemma OccursInConcat<T>(sub: seq<T>, a: seq<T>, b: seq<T>, c: seq<T>)
    requires Occurs(sub, b)
    ensures Occurs(sub, a + b + c)
  {
    var i :| At(sub, b, i);
    assert (a + b + c)[|a| + i..|a| + i + |sub|] == b[i..i + |sub|];
    assert At(sub, a + b + c, |a| + i);
  }

  // ---------------------------------------------------------------------------
  // str.replace and str.count
  // ---------------------------------------------------------------------------

  /** `s.replace("", rep)`: `rep` before every character and at the end. */
  function Interleave(s: string, rep: string): (r: string)
    ensures |r| == |s| + (|s| + 1) * |rep|
  {
    if s == [] then rep else rep + [s[0]] + Interleave(s[1..], rep)
  }

  /** Where copy `k` of `rep` starts in `Interleave(s, rep)`: after `k` copies and `k` characters. */
  function Slot(k: nat, rep: string): nat {
    if k == 0 then 0 else Slot(k - 1, rep) + |rep| + 1
  }

  /**
   * `Interleave(s, rep)` is `rep + [s[i]]` for each character in turn, then
   * `rep`: the copy at slot `k` starts at `Slot(k, rep)`.
   */
  lemma {:induction false} InterleaveSpec(s: string, rep: string)
    ensures forall k :: 0 <= k <= |s| ==> Slot(k, rep) + |rep| <= |Interleave(s, rep)|
    ensures forall i :: 0 <= i < |s| ==> Interleave(s, rep)[Slot(i, rep)..Slot(i + 1, rep)] == rep + [s[i]]
    ensures Interleave(s, rep)[Slot(|s|, rep)..] == rep
    decreases |s|
  {
    if s == [] {
      assert Interleave(s, rep) == rep;
    } else {
      var t := Interleave(s[1..], rep);
      InterleaveSpec(s[1..], rep);
      forall k | 0 <= k <= |s| ensures Slot(k, rep) + |rep| <= |Interleave(s, rep)| {
        if k > 0 {
          SlotBoundStep(s, rep, k);
        }
      }
      forall i | 0 <= i < |s| ensures Interleave(s, rep)[Slot(i, rep)..Slot(i + 1, rep)] == rep + [s[i]] {
        if i == 0 {
          SlotFirst(s, rep);
        } else {
          SlotSegmentStep(s, rep, i);
        }
      }
      SlotTailStep(s, rep);
    }
  }

  /** Unfolds one level of `Interleave` on a non-empty string. */
  lemma InterleaveCons(s: string, rep: string)
    requires s != []
    ensures Interleave(s, rep) == (rep + [s[0]]) + Interleave(s[1..], rep)
  {
  }

  /** Slot `k` of `s` is slot `k - 1` of `s[1..]`, moved past the first copy and character. */
  lemma SlotBoundStep(s: string, rep: string, k: nat)
    requires 0 < k <= |s|
    requires Slot(k - 1, rep) + |rep| <= |Interleave(s[1..], rep)|
    ensures Slot(k, rep) + |rep| <= |Interleave(s, rep)|
  {
    InterleaveCons(s, rep);
  }

  /** The first segment of a non-empty `Interleave` is `rep + [s[0]]`. */
  lemma SlotFirst(s: string, rep: string)
    requires s != []
    ensures Slot(1, rep) <= |Interleave(s, rep)|
    ensures Interleave(s, rep)[Slot(0, rep)..Slot(1, rep)] == rep + [s[0]]
  {
    InterleaveCons(s, rep);
    assert Slot(1, rep) == |rep + [s[0]]|;
  }

  /** Segment `i` of `s` is segment `i - 1` of `s[1..]`, moved past the first copy and character. */
  lemma SlotSegmentStep(s: string, rep: string, i: nat)
    requires 0 < i < |s|
    requires Slot(i, rep) + |rep| <= |Interleave(s[1..], rep)|
    requires Interleave(s[1..], rep)[Slot(i - 1, rep)..Slot(i, rep)] == rep + [s[1..][i - 1]]
    ensures Slot(i + 1, rep) <= |Interleave(s, rep)|
    ensures Interleave(s, rep)[Slot(i, rep)..Slot(i + 1, rep)] == rep + [s[i]]
  {
    var p := rep + [s[0]];
    var t := Interleave(s[1..], rep);
    InterleaveCons(s, rep);
    var a, b := Slot(i - 1, rep), Slot(i, rep);
    assert Slot(i, rep) == |p| + a && Slot(i + 1, rep) == |p| + b;
    SliceShift(p, t, a, b);
  }

  /** The copy after the last character of `s` is the one after the last character of `s[1..]`. */
  lemma SlotTailStep(s: string, rep: string)
    requires s != []
    requires Slot(|s| - 1, rep) <= |Interleave(s[1..], rep)|
    requires Interleave(s[1..], rep)[Slot(|s| - 1, rep)..] == rep
    ensures Slot(|s|, rep) <= |Interleave(s, rep)|
    ensures Interleave(s, rep)[Slot(|s|, rep)..] == rep
  {
    InterleaveCons(s, rep);
    assert Slot(|s|, rep) == |rep + [s[0]]| + Slot(|s| - 1, rep);
    SuffixShift(rep + [s[0]], Interleave(s[1..], rep), Slot(|s| - 1, rep));
  }

  /** A slice of `t` read past a prefix `p`. */
  lemma SliceShift<T>(p: seq<T>, t: seq<T>, a: nat, b: nat)
    requires a <= b <= |t|
    ensures (p + t)[|p| + a..|p| + b] == t[a..b]
  {
  }

  /** A suffix of `t` read past a prefix `p`. */
  lemma SuffixShift<T>(p: seq<T>, t: seq<T>, a: nat)
    requires a <= |t|
    ensures (p + t)[|p| + a..] == t[a..]
  {
  }

  /**
   * `s.replace(pattern, rep)`: every leftmost, non-overlapping occurrence of
   * `pattern` is replaced by `rep`, scanning from the left.
   */
  function Replace(s: string, pattern: string, rep: string): string
    decreases |s|
  {
    if pattern == [] then Interleave(s, rep)
    else if s == [] then []
    else if IsPrefix(pattern, s) then rep + Replace(s[|pattern|..], pattern, rep)
    else [s[0]] + Replace(s[1..], pattern, rep)
  }

  /** Text without an occurrence of `pattern` is left as it is. */
  lemma {:induction false} ReplaceAbsent(s: string, pattern: string, rep: string)
    requires !Occurs(pattern, s)
    ensures Replace(s, pattern, rep) == s
    decreases |s|
  {
    if pattern != [] && s != [] {
      ReplaceAbsent(s[1..], pattern, rep);
      assert s == [s[0]] + s[1..];
    }
  }

  /** `s.count(pattern)`: the number of occurrences `Replace` replaces. */
  function Count(s: string, pattern: string): (r: nat)
    ensures pattern == [] ==> r == |s| + 1
    decreases |s|
  {
    if pattern == [] then |s| + 1
    else if s == [] then 0
    else if IsPrefix(pattern, s) then 1 + Count(s[|pattern|..], pattern)
    else Count(s[1..], pattern)
  }

  /** A non-empty pattern is counted zero times exactly when it does not occur. */
  lemma {:induction false} CountZero(s: string, pattern: string)
    requires pattern != []
    ensures Count(s, pattern) == 0 <==> !Occurs(pattern, s)
    decreases |s|
  {
    if s != [] {
      if IsPrefix(pattern, s) {
        assert At(pattern, s, 0);
      } else {
        OccursTail(pattern, s);
        CountZero(s[1..], pattern);
      }
    }
  }

  /** `s.count(c)` for one character is the number of times `c` is in `s`. */
  lemma {:induction false} CountChar(s: string, c: char)
    ensures Count(s, [c]) == multiset(s)[c]
    decreases |s|
  {
    if s != [] {
      CountChar(s[1..], c);
      assert s == [s[0]] + s[1..];
      assert multiset(s) == multiset([s[0]]) + multiset(s[1..]);
      if s[0] == c {
        assert IsPrefix([c], s);
      } else {
        assert !IsPrefix([c], s);
      }
    }
  }

  /** Each replaced occurrence changes the length by `|rep| - |pattern|`. */
  lemma {:induction false} ReplaceLength(s: string, pattern: string, rep: string)
    ensures |Replace(s, pattern, rep)| == |s| + Count(s, pattern) * (|rep| - |pattern|)
    decreases |s|
  {
    if pattern == [] {
      ReplaceLengthEmpty(s, rep);
    } else if s == [] {
      assert Count(s, pattern) == 0;
    } else if IsPrefix(pattern, s) {
      ReplaceLength(s[|pattern|..], pattern, rep);
      ReplaceLengthPrefix(s, pattern, rep);
    } else {
      ReplaceLength(s[1..], pattern, rep);
      ReplaceLengthSkip(s, pattern, rep);
    }
  }

  /** The empty pattern: `|rep|` more characters at each of the `|s| + 1` places. */
  lemma ReplaceLengthEmpty(s: string, rep: string)
    ensures |Replace(s, [], rep)| == |s| + Count(s, []) * |rep|
  {
    var n, r := |s|, |rep|;
    assert |Replace(s, [], rep)| == n + (n + 1) * r;
    assert Count(s, []) == n + 1;
  }

  /** An occurrence at the front: one more replaced, `|pattern|` characters read. */
  lemma ReplaceLengthPrefix(s: string, pattern: string, rep: string)
    requires pattern != [] && s != [] && IsPrefix(pattern, s)
    requires |Replace(s[|pattern|..], pattern, rep)|
      == |s[|pattern|..]| + Count(s[|pattern|..], pattern) * (|rep| - |pattern|)
    ensures |Replace(s, pattern, rep)| == |s| + Count(s, pattern) * (|rep| - |pattern|)
  {
    var rest := s[|pattern|..];
    ReplacePrefixStep(s, pattern, rep);
    PrefixArith(|s|, |pattern|, |rep|, |rest|, Count(rest, pattern), Count(s, pattern),
      |Replace(rest, pattern, rep)|, |Replace(s, pattern, rep)|);
  }

  /** No occurrence at the front: one character kept. */
  lemma ReplaceLengthSkip(s: string, pattern: string, rep: string)
    requires pattern != [] && s != [] && !IsPrefix(pattern, s)
    requires |Replace(s[1..], pattern, rep)| == |s[1..]| + Count(s[1..], pattern) * (|rep| - |pattern|)
    ensures |Replace(s, pattern, rep)| == |s| + Count(s, pattern) * (|rep| - |pattern|)
  {
    ReplaceSkipStep(s, pattern, rep);
    SkipArith(|s|, |s[1..]|, |rep| - |pattern|, Count(s[1..], pattern), Count(s, pattern),
      |Replace(s[1..], pattern, rep)|, |Replace(s, pattern, rep)|);
  }

  /** An occurrence at the front is replaced and counted once. */
  lemma ReplacePrefixStep(s: string, pattern: string, rep: string)
    requires pattern != [] && s != [] && IsPrefix(pattern, s)
    ensures |Replace(s, pattern, rep)| == |rep| + |Replace(s[|pattern|..], pattern, rep)|
    ensures Count(s, pattern) == Count(s[|pattern|..], pattern) + 1
  {
  }

  /** A front character that starts no occurrence is kept and not counted. */
  lemma ReplaceSkipStep(s: string, pattern: string, rep: string)
    requires pattern != [] && s != [] && !IsPrefix(pattern, s)
    ensures |Replace(s, pattern, rep)| == 1 + |Replace(s[1..], pattern, rep)|
    ensures Count(s, pattern) == Count(s[1..], pattern)
  {
  }

  /** The length arithmetic of one replaced occurrence. */
  lemma PrefixArith(n: int, p: int, r: int, restLen: int, c: int, total: int, restOut: int, out: int)
    requires n == p + restLen && restOut == restLen + c * (r - p)
    requires total == c + 1 && out == r + restOut
    ensures out == n + total * (r - p)
  {
    assert (c + 1) * (r - p) == c * (r - p) + (r - p);
  }

  /** The length arithmetic of one kept character. */
  lemma SkipArith(n: int, restLen: int, d: int, c: int, total: int, restOut: int, out: int)
    requires n == restLen + 1 && restOut == restLen + c * d && total == c && out == 1 + restOut
    ensures out == n + total * d
  {
  }

  /** Replacing a single character by text that lacks it removes it entirely. */
  lemma {:induction false} ReplaceCharRemoves(s: string, c: char, rep: string)
    requires c !in rep
    ensures c !in Replace(s, [c], rep)
    decreases |s|
  {
    if s != [] {
      if IsPrefix([c], s) {
        ReplaceCharRemoves(s[1..], c, rep);
      } else {
        ReplaceCharRemoves(s[1..], c, rep);
      }
    }
  }

  /** When the pattern occurs, the replacement text appears in the result. */
  lemma {:induction false} ReplaceShowsReplacement(s: string, pattern: string, rep: string)
    requires pattern != [] && Occurs(pattern, s)
    ensures Occurs(rep, Replace(s, pattern, rep))
    decreases |s|
  {
    if IsPrefix(pattern, s) {
      var tail := Replace(s[|pattern|..], pattern, rep);
      assert (rep + tail)[0..0 + |rep|] == rep;
    } else {
      OccursTail(pattern, s);
      ReplaceShowsReplacement(s[1..], pattern, rep);
      OccursInConcat(rep, [s[0]], Replace(s[1..], pattern, rep), []);
      assert [s[0]] + Replace(s[1..], pattern, rep) + [] == Replace(s, pattern, rep);
    }
  }

  /** A character in neither the text nor the replacement is in no result. */
  lemma {:induction false} ReplaceKeepsOut(s: string, pattern: string, rep: string, c: char)
    requires c !in s && c !in rep
    ensures c !in Replace(s, pattern, rep)
    decreases |s|
  {
    if pattern == [] {
      InterleaveKeepsOut(s, rep, c);
    } else if s != [] {
      if IsPrefix(pattern, s) {
        assert forall x :: x in s[|pattern|..] ==> x in s;
        ReplaceKeepsOut(s[|pattern|..], pattern, rep, c);
      } else {
        assert forall x :: x in s[1..] ==> x in s;
        ReplaceKeepsOut(s[1..], pattern, rep, c);
      }
    }
  }

  lemma {:induction false} InterleaveKeepsOut(s: string, rep: string, c: char)
    requires c !in s && c !in rep
    ensures c !in Interleave(s, rep)
  {
    if s != [] {
      assert forall x :: x in s[1..] ==> x in s;
      InterleaveKeepsOut(s[1..], rep, c);
    }
  }

  /** A pattern whose first character is missing from `s` does not occur in it. */
  lemma MissingStart(pattern: string, s: string)
    requires pattern != [] && pattern[0] !in s
    ensures !Occurs(pattern, s)
  {
    forall i | 0 <= i && i + |pattern| <= |s| ensures !At(pattern, s, i) {
      assert s[i..i + |pattern|][0] == s[i] && s[i] in s;
    }
  }

  /** A pattern at the front is replaced, and the scan goes on behind it. */
  lemma ReplaceFront(pattern: string, b: string, rep: string)
    requires pattern != []
    ensures Replace(pattern + b, pattern, rep) == rep + Replace(b, pattern, rep)
  {
    var s := pattern + b;
    assert s[..|pattern|] == pattern && s[|pattern|..] == b;
  }

  /** A character that cannot start the pattern is kept, and the scan goes on behind it. */
  lemma ReplaceSkip(c: char, t: string, pattern: string, rep: string)
    requires pattern != [] && c != pattern[0]
    ensures Replace([c] + t, pattern, rep) == [c] + Replace(t, pattern, rep)
  {
    var s := [c] + t;
    assert s[1..] == t;
    assert |pattern| <= |s| ==> s[..|pattern|][0] == c;
  }

  /**
   * One occurrence, with the pattern's first character nowhere else: that
   * occurrence is replaced and the rest is kept.
   */
  lemma {:induction false} ReplaceOnce(a: string, pattern: string, b: string, rep: string)
    requires pattern != [] && pattern[0] !in a && pattern[0] !in b
    ensures Replace(a + pattern + b, pattern, rep) == a + rep + b
    decreases |a|
  {
    if a == [] {
      assert a + pattern + b == pattern + b && a + rep + b == rep + b;
      ReplaceFront(pattern, b, rep);
      MissingStart(pattern, b);
      ReplaceAbsent(b, pattern, rep);
    } else {
      assert a[0] in a;
      SplitHead(a, pattern, b);
      ReplaceSkip(a[0], a[1..] + pattern + b, pattern, rep);
      assert forall x :: x in a[1..] ==> x in a;
      ReplaceOnce(a[1..], pattern, b, rep);
      SplitHead(a, rep, b);
    }
  }

  lemma SplitHead<T>(a: seq<T>, m: seq<T>, b: seq<T>)
    requires a != []
    ensures a + m + b == [a[0]] + (a[1..] + m + b)
  {
    assert a == [a[0]] + a[1..];
  }

  /** Occurrence is transitive through containment. */
  lemma OccursTrans(a: string, b: string, c: string)
    requires Occurs(a, b) && Occurs(b, c)
    ensures Occurs(a, c)
  {
    var j :| At(b, c, j);
    var i :| At(a, b, i);
    forall k | 0 <= k < |a| ensures c[j + i + k] == a[k] {
      assert c[j + i + k] == c[j..j + |b|][i + k] == b[i + k] == b[i..i + |a|][k];
    }
    assert c[j + i..j + i + |a|] == a;
    assert At(a, c, j + i);
  }

  // ---------------------------------------------------------------------------
  // a <= b on str
  // ---------------------------------------------------------------------------

  /** Python's `a <= b` on str: code points compared left to right, a proper prefix first. */
  predicate StrLe(a: string, b: string) {
    a == [] || (b != [] && (a[0] < b[0] || (a[0] == b[0] && StrLe(a[1..], b[1..]))))
  }

  /** Any two strings compare. */
  lemma {:induction false} StrLeTotal(a: string, b: string)
    ensures StrLe(a, b) || StrLe(b, a)
  {
    if a != [] && b != [] && a[0] == b[0] {
      StrLeTotal(a[1..], b[1..]);
    }
  }

  lemma {:induction false} StrLeTrans(a: string, b: string, c: string)
    requires StrLe(a, b) && StrLe(b, c)
    ensures StrLe(a, c)
  {
    if a != [] && b != [] && c != [] && a[0] == b[0] == c[0] {
      StrLeTrans(a[1..], b[1..], c[1..]);
    }
  }

  /** Strings that compare both ways are equal. */
  lemma {:induction false} StrLeAntisymmetric(a: string, b: string)
    requires StrLe(a, b) && StrLe(b, a)
    ensures a == b
  {
    if a != [] && b != [] {
      StrLeAntisymmetric(a[1..], b[1..]);
      assert a == [a[0]] + a[1..] && b == [b[0]] + b[1..];
    }
  }

  // ---------------------------------------------------------------------------
  // str.split(" ") and " ".join
  // ---------------------------------------------------------------------------

  /** `s.split(sep)` for a one-character separator: one piece per separator, plus one. */
  function Split(s: string, sep: char): (r: seq<string>)
    ensures |r| > 0
    ensures forall i :: 0 <= i < |r| ==> sep !in r[i]
  {
    if s == [] then [[]]
    else
      var rest := Split(s[1..], sep);
      if s[0] == sep then [[]] + rest
      else [[s[0]] + rest[0]] + rest[1..]
  }

  /** There is one more piece than there are separators. */
  lemma {:induction false} SplitCount(s: string, sep: char)
    ensures |Split(s, sep)| == Count(s, [sep]) + 1
  {
    if s != [] {
      SplitCount(s[1..], sep);
      assert IsPrefix([sep], s) <==> s[0] == sep;
      assert [sep] + s[1..] == s ==> s[|[sep]|..] == s[1..];
    }
  }

  /** `sep.join(words)`. */
  function Join(words: seq<string>, sep: char): string
  {
    if |words| == 0 then []
    else if |words| == 1 then words[0]
    else words[0] + [sep] + Join(words[1..], sep)
  }

  /** Joining the pieces of a split gives back the text. */
  lemma {:induction false} JoinSplit(s: string, sep: char)
    ensures Join(Split(s, sep), sep) == s
  {
    if s != [] {
      JoinSplit(s[1..], sep);
      var rest := Split(s[1..], sep);
      var x := Split(s, sep);
      if s[0] == sep {
        assert x == [[]] + rest;
        assert x[1..] == rest;
        assert Join(x, sep) == [] + [sep] + Join(rest, sep);
      } else {
        assert x == [[s[0]] + rest[0]] + rest[1..];
        if |rest| == 1 {
          assert Join(x, sep) == [s[0]] + rest[0];
        } else {
          assert x[1..] == rest[1..];
          assert Join(rest, sep) == rest[0] + [sep] + Join(rest[1..], sep);
          assert Join(x, sep) == ([s[0]] + rest[0]) + [sep] + Join(rest[1..], sep);
        }
      }
      assert s == [s[0]] + s[1..];
    }
  }

  /** Splitting a join of separator-free words gives back the words. */
  lemma {:induction false} SplitJoin(words: seq<string>, sep: char)
    requires |words| > 0
    requires forall i :: 0 <= i < |words| ==> sep !in words[i]
    ensures Split(Join(words, sep), sep) == words
    decreases |words|, |words[0]|
  {
    if |words| == 1 {
      SplitFree(words[0], sep);
    } else if words[0] == [] {
      SplitJoin(words[1..], sep);
      SplitJoinEmptyHead(words, sep);
    } else {
      var w := words[0];
      var shorter := [w[1..]] + words[1..];
      assert forall x :: x in w[1..] ==> x in w;
      SplitJoin(shorter, sep);
      assert w[0] in w;
      SplitJoinPeel(words, sep);
    }
  }

  lemma SplitJoinEmptyHead(words: seq<string>, sep: char)
    requires |words| > 1 && words[0] == []
    requires Split(Join(words[1..], sep), sep) == words[1..]
    ensures Split(Join(words, sep), sep) == words
  {
    var rest := Join(words[1..], sep);
    assert Join(words, sep) == [sep] + rest;
    SplitFront(sep, rest, sep);
    assert words == [[]] + words[1..];
  }

  lemma SplitJoinPeel(words: seq<string>, sep: char)
    requires |words| > 1 && words[0] != [] && words[0][0] != sep
    requires Split(Join([words[0][1..]] + words[1..], sep), sep) == [words[0][1..]] + words[1..]
    ensures Split(Join(words, sep), sep) == words
  {
    var w := words[0];
    var shorter := [w[1..]] + words[1..];
    var rest := Join(shorter, sep);
    assert shorter[1..] == words[1..];
    assert Join(words, sep) == [w[0]] + rest by {
      assert rest == w[1..] + [sep] + Join(words[1..], sep);
      assert w == [w[0]] + w[1..];
    }
    SplitFront(w[0], rest, sep);
    assert w == [w[0]] + w[1..];
    assert words == [[w[0]] + shorter[0]] + shorter[1..];
  }

  /** One character in front: a separator starts a new piece, anything else joins the first. */
  lemma SplitFront(c: char, t: string, sep: char)
    ensures Split([c] + t, sep) ==
      if c == sep then [[]] + Split(t, sep) else [[c] + Split(t, sep)[0]] + Split(t, sep)[1..]
  {
    assert ([c] + t)[1..] == t;
  }

  /** A separator-free text splits into itself. */
  lemma {:induction false} SplitFree(w: string, sep: char)
    requires sep !in w
    ensures Split(w, sep) == [w]
  {
    if w != [] {
      SplitFree(w[1..], sep);
      assert w == [w[0]] + w[1..];
    }
  }

  /** `"".join(parts)`. */
  function Concat(parts: seq<string>): (r: string)
    ensures |parts| == 0 ==> r == []
  {
    if |parts| == 0 then [] else parts[0] + Concat(parts[1..])
  }

  lemma {:induction false} ConcatAppend(parts: seq<string>, last: string)
    ensures Concat(parts + [last]) == Concat(parts) + last
  {
    if |parts| > 0 {
      assert (parts + [last])[1..] == parts[1..] + [last];
      ConcatAppend(parts[1..], last);
    }
  }

  // ---------------------------------------------------------------------------
  // ASCII case mapping
  // ---------------------------------------------------------------------------

  function UpperChar(c: char): char {
    if 'a' <= c <= 'z' then (c as int - 32) as char else c
  }

  function LowerChar(c: char): char {
    if 'A' <= c <= 'Z' then (c as int + 32) as char else c
  }

  /** `s.upper()`. */
  function Upper(s: string): string {
    seq(|s|, i requires 0 <= i < |s| => UpperChar(s[i]))
  }

  /** `s.lower()`. */
  function Lower(s: string): string {
    seq(|s|, i requires 0 <= i < |s| => LowerChar(s[i]))
  }

  /** Mapping a character's case twice is mapping it once, to the last case. */
  lemma CaseTwice(c: char)
    ensures UpperChar(UpperChar(c)) == UpperChar(c) && UpperChar(LowerChar(c)) == UpperChar(c)
    ensures LowerChar(LowerChar(c)) == LowerChar(c) && LowerChar(UpperChar(c)) == LowerChar(c)
  {
  }

  /** Lower-casing twice is lower-casing once. */
  lemma LowerTwice(s: string)
    ensures Lower(Lower(s)) == Lower(s)
  {
    forall i | 0 <= i < |s| ensures Lower(Lower(s))[i] == Lower(s)[i] {
      CaseTwice(s[i]);
    }
  }

  /** Capitalising the first character does not change the lower-cased word. */
  lemma LowerCapitalised(w: string)
    requires w != []
    ensures Lower([UpperChar(w[0])] + Lower(w[1..])) == Lower(w)
  {
    var t := [UpperChar(w[0])] + Lower(w[1..]);
    forall i | 0 <= i < |w| ensures Lower(t)[i] == Lower(w)[i] {
      CaseTwice(w[i]);
      if i > 0 {
        assert t[i] == Lower(w[1..])[i - 1] == LowerChar(w[i]);
      }
    }
  }

  /** Case mapping never turns a character into a space or out of one. */
  lemma CaseKeepsSpace(c: char)
    ensures (UpperChar(c) == ' ') <==> (c == ' ')
    ensures (LowerChar(c) == ' ') <==> (c == ' ')
  {
  }

  // ---------------------------------------------------------------------------
  // str(int), as f"{n}" renders it
  // ---------------------------------------------------------------------------

  predicate IsDigit(c: char) {
    '0' <= c <= '9'
  }

  function DigitChar(d: int): (c: char)
    requires 0 <= d < 10
    ensures IsDigit(c)
  {
    (48 + d) as char
  }

  function DigitValue(c: char): (d: int)
    requires IsDigit(c)
    ensures 0 <= d < 10
  {
    c as int - 48
  }

  /** Decimal rendering of a natural number, most significant digit first. */
  function NatToDecimal(n: nat): (r: string)
    ensures |r| > 0
    ensures forall i :: 0 <= i < |r| ==> IsDigit(r[i])
  {
    if n < 10 then [DigitChar(n)] else NatToDecimal(n / 10) + [DigitChar(n % 10)]
  }

  /** `str(n)` for a Python int. */
  function IntToDecimal(n: int): string {
    if n < 0 then "-" + NatToDecimal(-n) else NatToDecimal(n)
  }

  function ParseNat(s: string): nat
    requires forall i :: 0 <= i < |s| ==> IsDigit(s[i])
  {
    if s == [] then 0 else ParseNat(s[..|s| - 1]) * 10 + DigitValue(s[|s| - 1])
  }

  /** `int(s)` for what `str(n)` produces. */
  function ParseInt(s: string): Option<int> {
    if |s| > 1 && s[0] == '-' && forall i :: 1 <= i < |s| ==> IsDigit(s[i]) then Some(0 - ParseNat(s[1..]))
    else if |s| > 0 && forall i :: 0 <= i < |s| ==> IsDigit(s[i]) then Some(ParseNat(s))
    else None
  }

  lemma {:induction false} ParseNatDecimal(n: nat)
    ensures ParseNat(NatToDecimal(n)) == n
  {
    if n >= 10 {
      ParseNatDecimal(n / 10);
      var r := NatToDecimal(n);
      assert r[..|r| - 1] == NatToDecimal(n / 10);
    }
  }

  /** `int(str(n)) == n`: the decimal rendering loses nothing. */
  lemma IntDecimalRoundTrip(n: int)
    ensures ParseInt(IntToDecimal(n)) == Some(n)
  {
    if n < 0 {
      ParseNatDecimal(-n);
      assert IntToDecimal(n)[1..] == NatToDecimal(-n);
    } else {
      ParseNatDecimal(n);
    }
  }
}
