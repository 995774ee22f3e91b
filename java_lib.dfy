/**
 * The behaviour of the few java.lang.String and java.util.ArrayList
 * operations that the account parser, the query builder and the account-list
 * bookkeeping rely on, written out so that their edge cases (trailing empty
 * pieces of `split`, `indexOf` returning -1) are part of the model.
 */
module JavaLib {

  /** No character of `s` is one of `seps`. */
  predicate Free(s: string, seps: set<char>)
  {
    forall k :: 0 <= k < |s| ==> s[k] !in seps
  }

  lemma FreeAppend(x: string, y: string, seps: set<char>)
    ensures Free(x + y, seps) <==> Free(x, seps) && Free(y, seps)
  {
    if Free(x, seps) && Free(y, seps) {
      forall k | 0 <= k < |x + y| ensures (x + y)[k] !in seps {
        if k >= |x| { assert (x + y)[k] == y[k - |x|]; }
      }
    }
    if Free(x + y, seps) {
      forall k | 0 <= k < |x| ensures x[k] !in seps {
        assert (x + y)[k] == x[k];
      }
      forall k | 0 <= k < |y| ensures y[k] !in seps {
        assert (x + y)[|x| + k] == y[k];
      }
    }
  }

  // ---------------------------------------------------------------------
  // String.replace(c, "") for a one-character target

  /** `s.replace(c, "")`: every occurrence of `c` removed, the other characters kept in order. */
  function Delete(s: string, c: char): string
  {
    if |s| == 0 then ""
    else (if s[0] == c then "" else [s[0]]) + Delete(s[1..], c)
  }

  /** `replace` leaves no `c`, keeps every other character (counted), and changes nothing when `c` is absent. */
  lemma {:induction false} DeleteFacts(s: string, c: char)
    ensures c !in Delete(s, c)
    ensures forall d :: d != c ==> multiset(Delete(s, c))[d] == multiset(s)[d]
    ensures c !in s ==> Delete(s, c) == s
  {
    if |s| > 0 {
      DeleteFacts(s[1..], c);
      assert s == [s[0]] + s[1..];
    }
  }

  /** `replace` works piecewise over a concatenation. */
  lemma {:induction false} DeleteAppend(x: string, y: string, c: char)
    ensures Delete(x + y, c) == Delete(x, c) + Delete(y, c)
  {
    if |x| > 0 {
      DeleteAppend(x[1..], y, c);
      assert (x + y)[1..] == x[1..] + y;
    } else {
      assert x + y == y;
    }
  }

  lemma DeleteFree(s: string, c: char, other: set<char>)
    requires Free(s, other) && c in other
    ensures Delete(s, c) == s
  {
    DeleteFacts(s, c);
  }

  // ---------------------------------------------------------------------
  // String.split on a set of single characters (the regular expression ",|:")

  /**
   * The pieces of `s` between characters of `seps`, before Java drops
   * trailing empty pieces: one more piece than there are separators.
   */
  function SplitChars(s: string, seps: set<char>): (r: seq<string>)
    ensures |r| >= 1
  {
    if |s| == 0 then [""]
    else
      var rest := SplitChars(s[1..], seps);
      if s[0] in seps then [""] + rest else [[s[0]] + rest[0]] + rest[1..]
  }

  /** The separator characters of `s`, in order. */
  function SepChars(s: string, seps: set<char>): string
  {
    if |s| == 0 then ""
    else (if s[0] in seps then [s[0]] else "") + SepChars(s[1..], seps)
  }

  /** `pieces[0] + glue[0] + pieces[1] + ... + pieces[n]`. */
  function Glue(pieces: seq<string>, glue: string): string
    requires |pieces| == |glue| + 1
    decreases |glue|
  {
    if |glue| == 0 then pieces[0]
    else pieces[0] + [glue[0]] + Glue(pieces[1..], glue[1..])
  }

  /** There is one more piece than there are separators. */
  lemma {:induction false} SplitCharsCount(s: string, seps: set<char>)
    ensures |SplitChars(s, seps)| == |SepChars(s, seps)| + 1
  {
    if |s| > 0 {
      SplitCharsCount(s[1..], seps);
    }
  }

  /** Putting a character before the first piece puts it before the glued text. */
  lemma GluePrepend(c: char, pieces: seq<string>, glue: string)
    requires |pieces| == |glue| + 1
    ensures Glue([[c] + pieces[0]] + pieces[1..], glue) == [c] + Glue(pieces, glue)
  {
    var longer := [[c] + pieces[0]] + pieces[1..];
    if |glue| > 0 {
      assert longer[1..] == pieces[1..];
      assert Glue(longer, glue) == ([c] + pieces[0]) + [glue[0]] + Glue(pieces[1..], glue[1..]);
    }
  }

  /** Splitting loses nothing: putting the separators back between the pieces gives `s` again. */
  lemma {:induction false} SplitCharsRoundTrip(s: string, seps: set<char>)
    ensures |SplitChars(s, seps)| == |SepChars(s, seps)| + 1
    ensures Glue(SplitChars(s, seps), SepChars(s, seps)) == s
  {
    SplitCharsCount(s, seps);
    if |s| > 0 {
      var rest, g := SplitChars(s[1..], seps), SepChars(s[1..], seps);
      SplitCharsRoundTrip(s[1..], seps);
      assert s == [s[0]] + s[1..];
      if s[0] in seps {
        assert ([""] + rest)[1..] == rest;
      } else {
        assert SplitChars(s, seps) == [[s[0]] + rest[0]] + rest[1..];
        assert SepChars(s, seps) == g;
        GluePrepend(s[0], rest, g);
      }
    }
  }

  /** No piece contains a separator. */
  lemma {:induction false} SplitCharsPiecesFree(s: string, seps: set<char>)
    ensures forall i :: 0 <= i < |SplitChars(s, seps)| ==> Free(SplitChars(s, seps)[i], seps)
  {
    if |s| > 0 {
      var rest := SplitChars(s[1..], seps);
      SplitCharsPiecesFree(s[1..], seps);
      if s[0] !in seps {
        FreeAppend([s[0]], rest[0], seps);
      }
    }
  }

  /** A string without separators is a single piece. */
  lemma {:induction false} SplitCharsFree(x: string, seps: set<char>)
    requires Free(x, seps)
    ensures SplitChars(x, seps) == [x]
  {
    if |x| > 0 {
      assert Free(x[1..], seps) by {
        forall k | 0 <= k < |x[1..]| ensures x[1..][k] !in seps { assert x[1..][k] == x[k + 1]; }
      }
      SplitCharsFree(x[1..], seps);
      assert x == [x[0]] + x[1..];
    }
  }

  /** The first separator ends the first piece; splitting carries on after it. */
  lemma {:induction false} SplitCharsAt(x: string, c: char, y: string, seps: set<char>)
    requires Free(x, seps) && c in seps
    ensures SplitChars(x + [c] + y, seps) == [x] + SplitChars(y, seps)
  {
    var s := x + [c] + y;
    if |x| == 0 {
      assert s == [c] + y;
      assert s[1..] == y;
    } else {
      assert Free(x[1..], seps) by {
        forall k | 0 <= k < |x[1..]| ensures x[1..][k] !in seps { assert x[1..][k] == x[k + 1]; }
      }
      SplitCharsAt(x[1..], c, y, seps);
      assert s[1..] == x[1..] + [c] + y;
      assert s[0] == x[0] && x[0] !in seps;
      assert [x[0]] + x[1..] == x;
    }
  }

  /** Pieces free of separators, glued with separator characters, split back into the same pieces. */
  lemma {:induction false} SplitCharsOfGlue(pieces: seq<string>, glue: string, seps: set<char>)
    requires |pieces| == |glue| + 1
    requires forall i :: 0 <= i < |pieces| ==> Free(pieces[i], seps)
    requires forall k :: 0 <= k < |glue| ==> glue[k] in seps
    ensures SplitChars(Glue(pieces, glue), seps) == pieces
    decreases |glue|
  {
    if |glue| == 0 {
      SplitCharsFree(pieces[0], seps);
    } else {
      SplitCharsOfGlue(pieces[1..], glue[1..], seps);
      SplitCharsAt(pieces[0], glue[0], Glue(pieces[1..], glue[1..]), seps);
      assert pieces == [pieces[0]] + pieces[1..];
    }
  }

  /** Gluing pieces free of `other` with characters outside `other` gives a string free of `other`. */
  lemma {:induction false} GlueFree(pieces: seq<string>, glue: string, other: set<char>)
    requires |pieces| == |glue| + 1
    requires forall i :: 0 <= i < |pieces| ==> Free(pieces[i], other)
    requires forall k :: 0 <= k < |glue| ==> glue[k] !in other
    ensures Free(Glue(pieces, glue), other)
    decreases |glue|
  {
    if |glue| > 0 {
      GlueFree(pieces[1..], glue[1..], other);
      FreeAppend(pieces[0], [glue[0]], other);
      FreeAppend(pieces[0] + [glue[0]], Glue(pieces[1..], glue[1..]), other);
    }
  }

  // ---------------------------------------------------------------------
  // String.split on a literal separator (the regular expression "}\\{")

  /**
   * The pieces of `s` around the leftmost non-overlapping occurrences of
   * `sep`, before Java drops trailing empty pieces.
   */
  function SplitOn(s: string, sep: string): (r: seq<string>)
    requires |sep| > 0
    ensures |r| >= 1
    decreases |s|
  {
    if |s| < |sep| then [s]
    else if s[..|sep|] == sep then [""] + SplitOn(s[|sep|..], sep)
    else
      var rest := SplitOn(s[1..], sep);
      [[s[0]] + rest[0]] + rest[1..]
  }

  /** `pieces[0] + sep + pieces[1] + ... + sep + pieces[n]`. */
  function JoinWith(pieces: seq<string>, sep: string): string
    requires |pieces| >= 1
  {
    if |pieces| == 1 then pieces[0]
    else pieces[0] + sep + JoinWith(pieces[1..], sep)
  }

  /** Splitting on a literal loses nothing: joining the pieces with the separator gives `s` again. */
  lemma {:induction false} SplitOnRoundTrip(s: string, sep: string)
    requires |sep| > 0
    ensures JoinWith(SplitOn(s, sep), sep) == s
    decreases |s|
  {
    if |s| >= |sep| {
      if s[..|sep|] == sep {
        SplitOnRoundTrip(s[|sep|..], sep);
        SplitOnSeparatorStep(s, sep);
      } else {
        SplitOnRoundTrip(s[1..], sep);
        SplitOnCharStep(s, sep);
      }
    }
  }

  /** The round trip carries over a separator at the front. */
  lemma SplitOnSeparatorStep(s: string, sep: string)
    requires 0 < |sep| <= |s| && s[..|sep|] == sep
    requires JoinWith(SplitOn(s[|sep|..], sep), sep) == s[|sep|..]
    ensures JoinWith(SplitOn(s, sep), sep) == s
  {
    var tail := s[|sep|..];
    var rest := SplitOn(tail, sep);
    var pieces := [""] + rest;
    assert SplitOn(s, sep) == pieces;
    assert pieces[1..] == rest;
    assert JoinWith(pieces, sep) == pieces[0] + sep + tail;
    assert pieces[0] + sep == sep;
    SliceJoin(s, |sep|);
  }

  /** The round trip carries over a character at the front that does not start a separator. */
  lemma SplitOnCharStep(s: string, sep: string)
    requires 0 < |sep| <= |s| && s[..|sep|] != sep
    requires JoinWith(SplitOn(s[1..], sep), sep) == s[1..]
    ensures JoinWith(SplitOn(s, sep), sep) == s
  {
    var tail := s[1..];
    var rest := SplitOn(tail, sep);
    assert SplitOn(s, sep) == [[s[0]] + rest[0]] + rest[1..];
    JoinPrepend(s[0], rest, sep);
    assert s == [s[0]] + tail;
  }

  /** Putting a character before the first piece puts it before the joined text. */
  lemma JoinPrepend(c: char, pieces: seq<string>, sep: string)
    requires |pieces| >= 1
    ensures JoinWith([[c] + pieces[0]] + pieces[1..], sep) == [c] + JoinWith(pieces, sep)
  {
    var longer := [[c] + pieces[0]] + pieces[1..];
    if |pieces| > 1 {
      assert longer[1..] == pieces[1..];
      assert JoinWith(longer, sep) == ([c] + pieces[0]) + sep + JoinWith(pieces[1..], sep);
    }
  }

  /** `sep` occurs in `s` at position `i`. */
  predicate OccursAt(s: string, sep: string, i: int)
  {
    0 <= i && i + |sep| <= |s| && s[i..i + |sep|] == sep
  }

  /** `sep` occurs nowhere in `s`. */
  predicate NoOccurrence(s: string, sep: string)
  {
    forall j :: 0 <= j < |s| ==> !OccursAt(s, sep, j)
  }

  /**
   * When no occurrence of `sep` starts inside `x`, the first piece of
   * `x + y` is `x` followed by the first piece of `y`.
   */
  lemma {:induction false} SplitOnPrefix(x: string, y: string, sep: string)
    requires |sep| > 0
    requires forall i :: 0 <= i < |x| ==> !OccursAt(x + y, sep, i)
    ensures SplitOn(x + y, sep) == [x + SplitOn(y, sep)[0]] + SplitOn(y, sep)[1..]
    decreases |x|
  {
    if |x| > 0 {
      var s := x + y;
      assert s[1..] == x[1..] + y;
      forall i | 0 <= i < |x[1..]| ensures !OccursAt(x[1..] + y, sep, i) {
        assert !OccursAt(s, sep, i + 1);
        if i + |sep| <= |x[1..] + y| {
          assert (x[1..] + y)[i..i + |sep|] == s[i + 1..i + 1 + |sep|];
        }
      }
      SplitOnPrefix(x[1..], y, sep);
      assert !OccursAt(s, sep, 0);
      if |s| < |sep| {
        assert |y| < |sep|;
        assert SplitOn(y, sep) == [y];
        assert SplitOn(s, sep) == [s];
        assert [y][1..] == [];
      } else {
        assert s[..|sep|] != sep;
        var ys := SplitOn(y, sep);
        var rest := SplitOn(s[1..], sep);
        assert rest == [x[1..] + ys[0]] + ys[1..];
        assert rest[0] == x[1..] + ys[0] && rest[1..] == ys[1..];
        assert SplitOn(s, sep) == [[s[0]] + rest[0]] + rest[1..];
        assert [s[0]] + (x[1..] + ys[0]) == x + ys[0];
      }
    } else {
      var ys := SplitOn(y, sep);
      assert x + y == y && x + ys[0] == ys[0];
      assert [ys[0]] + ys[1..] == ys;
    }
  }

  /**
   * Joining pieces with `sep` and splitting again gives the pieces back when
   * no piece but the last contains the first character of `sep` and the last
   * contains no occurrence of `sep`.
   */
  lemma {:induction false} SplitOnJoin(ps: seq<string>, sep: string)
    requires |sep| > 0 && |ps| >= 1
    requires forall i :: 0 <= i < |ps| - 1 ==> sep[0] !in ps[i]
    requires NoOccurrence(ps[|ps| - 1], sep)
    ensures SplitOn(JoinWith(ps, sep), sep) == ps
  {
    if |ps| == 1 {
      assert ps[0] + "" == ps[0];
      SplitOnPrefix(ps[0], "", sep);
    } else {
      assert ps[1..][|ps| - 2] == ps[|ps| - 1];
      SplitOnJoin(ps[1..], sep);
      SplitOnJoinStep(ps, sep);
    }
  }

  /** Splitting the joined pieces carries over one more piece at the front. */
  lemma SplitOnJoinStep(ps: seq<string>, sep: string)
    requires |sep| > 0 && |ps| >= 2 && sep[0] !in ps[0]
    requires SplitOn(JoinWith(ps[1..], sep), sep) == ps[1..]
    ensures SplitOn(JoinWith(ps, sep), sep) == ps
  {
    var x, y := ps[0], JoinWith(ps[1..], sep);
    forall i | 0 <= i < |x| ensures !OccursAt(x + (sep + y), sep, i) {
      assert (x + (sep + y))[i] == x[i];
    }
    SplitOnPrefix(x, sep + y, sep);
    SplitOnAtStart(y, sep);
    ConcatAssoc(x, sep, y);
    var r := SplitOn(sep + y, sep);
    assert r == [""] + ps[1..];
    assert r[0] == "" && r[1..] == ps[1..];
    assert x + "" == x;
    assert ps == [ps[0]] + ps[1..];
  }

  /** An occurrence of the separator at the start ends an empty first piece. */
  lemma SplitOnAtStart(y: string, sep: string)
    requires |sep| > 0
    ensures SplitOn(sep + y, sep) == [""] + SplitOn(y, sep)
  {
    assert (sep + y)[..|sep|] == sep;
    assert (sep + y)[|sep|..] == y;
  }

  // ---------------------------------------------------------------------
  // What String.split (limit 0) returns from the raw pieces

  /** The pieces without their trailing empty strings. */
  function DropTrailingEmpty(r: seq<string>): seq<string>
  {
    if |r| == 0 then []
    else if r[|r| - 1] == "" then DropTrailingEmpty(r[..|r| - 1])
    else r
  }

  /**
   * `String.split(regex)`: when the separator never matched (one raw piece)
   * the string itself comes back, even if it is empty; otherwise the pieces
   * without their trailing empty strings.
   */
  function JavaSplit(raw: seq<string>): seq<string>
  {
    if |raw| == 1 then raw else DropTrailingEmpty(raw)
  }

  /** What is dropped is a run of empty strings at the end, and what remains does not end in one. */
  lemma {:induction false} DropTrailingEmptyFacts(r: seq<string>)
    ensures |DropTrailingEmpty(r)| <= |r|
    ensures DropTrailingEmpty(r) == r[..|DropTrailingEmpty(r)|]
    ensures forall j :: |DropTrailingEmpty(r)| <= j < |r| ==> r[j] == ""
    ensures |DropTrailingEmpty(r)| > 0 ==> DropTrailingEmpty(r)[|DropTrailingEmpty(r)| - 1] != ""
  {
    if |r| > 0 && r[|r| - 1] == "" {
      var p := r[..|r| - 1];
      DropTrailingEmptyFacts(p);
      assert p[..|DropTrailingEmpty(p)|] == r[..|DropTrailingEmpty(p)|];
    }
  }

  // ---------------------------------------------------------------------
  // String.indexOf(String), and ArrayList.indexOf / remove(int)

  /** `p` occurs in `s` at position `i`. */
  predicate SubstringAt(s: string, p: string, i: int)
  {
    0 <= i && i + |p| <= |s| && s[i..i + |p|] == p
  }

  function IndexOfFrom(s: string, p: string, from: nat): int
    decreases |s| - from
  {
    if from + |p| > |s| then -1
    else if s[from..from + |p|] == p then from
    else IndexOfFrom(s, p, from + 1)
  }

  /** `s.indexOf(p)`: the first position where `p` occurs, or -1. */
  function IndexOf(s: string, p: string): int
  {
    IndexOfFrom(s, p, 0)
  }

  lemma {:induction false} IndexOfFromFacts(s: string, p: string, from: nat)
    ensures IndexOfFrom(s, p, from) == -1 <==> forall i :: from <= i ==> !SubstringAt(s, p, i)
    ensures IndexOfFrom(s, p, from) != -1 ==>
      from <= IndexOfFrom(s, p, from) && SubstringAt(s, p, IndexOfFrom(s, p, from)) &&
      forall i :: from <= i < IndexOfFrom(s, p, from) ==> !SubstringAt(s, p, i)
    decreases |s| - from
  {
    if from + |p| > |s| {
      forall i | from <= i ensures !SubstringAt(s, p, i) {
      }
    } else if s[from..from + |p|] != p {
      IndexOfFromFacts(s, p, from + 1);
      assert !SubstringAt(s, p, from);
      assert IndexOfFrom(s, p, from) == IndexOfFrom(s, p, from + 1);
      if IndexOfFrom(s, p, from + 1) == -1 {
        forall i | from <= i ensures !SubstringAt(s, p, i) {
          if i > from { assert from + 1 <= i; }
        }
      }
      if forall i :: from <= i ==> !SubstringAt(s, p, i) {
        assert forall i :: from + 1 <= i ==> !SubstringAt(s, p, i);
        assert IndexOfFrom(s, p, from + 1) == -1;
      }
      if IndexOfFrom(s, p, from + 1) != -1 {
        var k := IndexOfFrom(s, p, from + 1);
        assert from <= k && SubstringAt(s, p, k);
      }
    } else {
      assert SubstringAt(s, p, from);
    }
  }

  /** `indexOf` is -1 exactly when `p` does not occur, and otherwise the first place it occurs. */
  lemma IndexOfFacts(s: string, p: string)
    ensures IndexOf(s, p) == -1 <==> forall i :: !SubstringAt(s, p, i)
    ensures IndexOf(s, p) != -1 ==>
      SubstringAt(s, p, IndexOf(s, p)) && forall i :: 0 <= i < IndexOf(s, p) ==> !SubstringAt(s, p, i)
  {
    IndexOfFromFacts(s, p, 0);
  }

  /** `list.indexOf(x)`: the first position holding `x`, or -1. */
  function IndexOfElement<T(==)>(xs: seq<T>, x: T): (r: int)
    ensures r == -1 <==> x !in xs
    ensures r != -1 ==> 0 <= r < |xs| && xs[r] == x && x !in xs[..r]
  {
    if |xs| == 0 then -1
    else if xs[0] == x then 0
    else
      var k := IndexOfElement(xs[1..], x);
      if k == -1 then -1 else k + 1
  }

  /** `list.remove(i)` for a valid index. */
  function RemoveAt<T>(xs: seq<T>, i: nat): (r: seq<T>)
    requires i < |xs|
    ensures |r| == |xs| - 1
    ensures multiset(r) == multiset(xs) - multiset{xs[i]}
    ensures forall k :: 0 <= k < i ==> r[k] == xs[k]
    ensures forall k :: i <= k < |r| ==> r[k] == xs[k + 1]
  {
    MultisetAround(xs, i);
    xs[..i] + xs[i + 1..]
  }

  /** The elements of a list are those before `i`, the one at `i` and those after it. */
  lemma MultisetAround<T>(xs: seq<T>, i: nat)
    requires i < |xs|
    ensures multiset(xs) == multiset(xs[..i]) + multiset{xs[i]} + multiset(xs[i + 1..])
  {
    assert xs == xs[..i] + [xs[i]] + xs[i + 1..];
  }

  /** A string is its first `k` characters followed by the rest. */
  lemma SliceJoin(s: string, k: nat)
    requires k <= |s|
    ensures s == s[..k] + s[k..]
  {
  }

  /** Joining three strings does not depend on which two are joined first. */
  lemma ConcatAssoc(x: string, y: string, z: string)
    ensures (x + y) + z == x + (y + z)
  {
  }
}
