/** Go's `strings` helpers on single-character separators: Index, Split, Join, Count. */
module Strings {
  import opened Wrappers

  /** Position of the first `c` in `s` (Go `strings.IndexByte`). */
  function IndexOf(s: string, c: char): (r: Option<nat>)
    ensures r.None? <==> c !in s
    ensures r.Some? ==> r.value < |s| && s[r.value] == c && c !in s[..r.value]
  {
    if |s| == 0 then None
    else if s[0] == c then Some(0)
    else
      match IndexOf(s[1..], c)
      case None => None
      case Some(i) =>
        assert s[..i + 1] == [s[0]] + s[1..][..i];
        Some(i + 1)
  }

  /** Number of occurrences of `c` in `s` (Go `strings.Count`). */
  function Count(s: string, c: char): nat
  {
    if |s| == 0 then 0 else (if s[0] == c then 1 else 0) + Count(s[1..], c)
  }

  /** Joins `parts` with `c` between consecutive parts (Go `strings.Join`). */
  function Join(parts: seq<string>, c: char): string
  {
    if |parts| == 0 then ""
    else if |parts| == 1 then parts[0]
    else parts[0] + [c] + Join(parts[1..], c)
  }

  /** Go `strings.Split(s, string(c))`: the maximal `c`-free pieces, never empty. */
  function Split(s: string, c: char): (parts: seq<string>)
    ensures |parts| >= 1
    decreases |s|
  {
    if |s| == 0 then [""]
    else
      var rest := Split(s[1..], c);
      if s[0] == c then [""] + rest
      else [[s[0]] + rest[0]] + rest[1..]
  }

  /** No piece `Split` gives contains the separator. */
  lemma {:induction false} SplitFree(s: string, c: char)
    ensures forall i :: 0 <= i < |Split(s, c)| ==> c !in Split(s, c)[i]
    decreases |s|
  {
    if |s| > 0 {
      SplitFree(s[1..], c);
      var rest := Split(s[1..], c);
      if s[0] != c {
        assert c !in [s[0]] + rest[0];
        assert forall i :: 1 <= i < |rest| ==> rest[1..][i - 1] == rest[i];
      }
    }
  }

  /** `Join` undoes `Split`. */
  lemma {:induction false} JoinSplit(s: string, c: char)
    ensures Join(Split(s, c), c) == s
    decreases |s|
  {
    if |s| > 0 {
      JoinSplit(s[1..], c);
      var rest := Split(s[1..], c);
      if s[0] == c {
        assert ([""] + rest)[1..] == rest;
      } else {
        var parts := [[s[0]] + rest[0]] + rest[1..];
        assert parts[1..] == rest[1..];
        assert s == [s[0]] + s[1..];
      }
    }
  }

  /** `Split` yields one more piece than there are separators. */
  lemma {:induction false} SplitCount(s: string, c: char)
    ensures |Split(s, c)| == Count(s, c) + 1
    decreases |s|
  {
    if |s| > 0 {
      SplitCount(s[1..], c);
    }
  }

  lemma CountAbsent(s: string, c: char)
    requires c !in s
    ensures Count(s, c) == 0
  {
    if |s| > 0 {
      assert c !in s[1..];
      CountAbsent(s[1..], c);
    }
  }

  /** A string containing `c` has at least one occurrence of it. */
  lemma CountPresent(s: string, c: char)
    requires c in s
    ensures Count(s, c) > 0
  {
    if s[0] != c {
      assert c in s[1..];
      CountPresent(s[1..], c);
    }
  }

  lemma CountAppend(a: string, b: string, c: char)
    ensures Count(a + b, c) == Count(a, c) + Count(b, c)
  {
    if |a| > 0 {
      assert (a + b)[1..] == a[1..] + b;
      CountAppend(a[1..], b, c);
    } else {
      assert a + b == b;
    }
  }

  /** The first occurrence of `c` in `a + [c] + b` is the one after `a` when `a` is `c`-free. */
  lemma IndexOfAppend(a: string, c: char, b: string)
    requires c !in a
    ensures IndexOf(a + [c] + b, c) == Some(|a|)
  {
    var s := a + [c] + b;
    assert s[|a|] == c;
    assert s[..|a|] == a;
  }

  /** A leading separator splits off an empty piece. */
  lemma SplitSep(t: string, c: char)
    ensures Split([c] + t, c) == [""] + Split(t, c)
  {
    assert ([c] + t)[0] == c && ([c] + t)[1..] == t;
  }

  /** A leading non-separator joins the first piece. */
  lemma SplitChar(x: char, t: string, c: char)
    requires x != c
    ensures Split([x] + t, c) == [[x] + Split(t, c)[0]] + Split(t, c)[1..]
  {
    assert ([x] + t)[0] == x && ([x] + t)[1..] == t;
  }

  /** Splitting at a separator splits the two sides independently. */
  lemma {:induction false} SplitAppend(a: string, c: char, b: string)
    ensures Split(a + [c] + b, c) == Split(a, c) + Split(b, c)
    decreases |a|
  {
    if |a| == 0 {
      assert a + [c] + b == [c] + b;
      SplitSep(b, c);
    } else {
      SplitAppend(a[1..], c, b);
      SplitAppendStep(a, c, b);
    }
  }

  /** The inductive step of `SplitAppend`: one more leading character. */
  lemma SplitAppendStep(a: string, c: char, b: string)
    requires |a| > 0 && Split(a[1..] + [c] + b, c) == Split(a[1..], c) + Split(b, c)
    ensures Split(a + [c] + b, c) == Split(a, c) + Split(b, c)
  {
    var t := a[1..] + [c] + b;
    assert a + [c] + b == [a[0]] + t;
    assert a == [a[0]] + a[1..];
    if a[0] == c {
      SplitSepStep(a[1..], t, c, Split(b, c));
    } else {
      SplitCharStep(a[0], a[1..], t, c, Split(b, c));
    }
  }

  lemma SplitSepStep(u: string, t: string, c: char, q: seq<string>)
    requires Split(t, c) == Split(u, c) + q
    ensures Split([c] + t, c) == Split([c] + u, c) + q
  {
    SplitSep(t, c);
    SplitSep(u, c);
    var r := Split(u, c);
    assert [""] + (r + q) == ([""] + r) + q;
  }

  lemma SplitCharStep(x: char, u: string, t: string, c: char, q: seq<string>)
    requires x != c && Split(t, c) == Split(u, c) + q
    ensures Split([x] + t, c) == Split([x] + u, c) + q
  {
    SplitChar(x, t, c);
    SplitChar(x, u, c);
    var r := Split(u, c);
    assert (r + q)[0] == r[0];
    ConsFirst([x] + r[0], r, q);
  }

  /** Replacing the first piece commutes with appending pieces. */
  lemma ConsFirst(x: string, r: seq<string>, q: seq<string>)
    requires |r| > 0
    ensures [x] + (r + q)[1..] == ([x] + r[1..]) + q
  {
    assert (r + q)[1..] == r[1..] + q;
  }

  /** `Split` cuts at the first separator. */
  lemma SplitAt(s: string, c: char, i: nat)
    requires IndexOf(s, c) == Some(i)
    ensures Split(s, c) == [s[..i]] + Split(s[i + 1..], c)
  {
    assert s == s[..i] + [c] + s[i + 1..];
    SplitAppend(s[..i], c, s[i + 1..]);
    SplitAbsent(s[..i], c);
  }

  /** Splitting a separator-free string gives back that one string. */
  lemma {:induction false} SplitAbsent(s: string, c: char)
    requires c !in s
    ensures Split(s, c) == [s]
    decreases |s|
  {
    if |s| > 0 {
      assert c !in s[1..];
      SplitAbsent(s[1..], c);
      assert s == [s[0]] + s[1..];
    }
  }

  /** `Split` undoes `Join` when no part contains the separator. */
  lemma {:induction false} SplitJoin(parts: seq<string>, c: char)
    requires |parts| >= 1
    requires forall i :: 0 <= i < |parts| ==> c !in parts[i]
    ensures Split(Join(parts, c), c) == parts
    decreases |parts|
  {
    if |parts| == 1 {
      SplitAbsent(parts[0], c);
    } else {
      SplitJoin(parts[1..], c);
      SplitAppend(parts[0], c, Join(parts[1..], c));
      SplitAbsent(parts[0], c);
      assert parts == [parts[0]] + parts[1..];
    }
  }

  /** Go `strings.HasPrefix`. */
  predicate HasPrefix(s: string, prefix: string) {
    |prefix| <= |s| && s[..|prefix|] == prefix
  }
}
