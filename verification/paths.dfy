/**
 * Go's `filepath.Join` and `filepath.Clean` on rooted Unix paths, the only kind the
 * init container builds: `/`-separated elements where empty elements and `.` are
 * dropped, `..` removes the element before it, and `..` at the root stays at the root.
 */
module Paths {
  import opened Strings

  /** An element a clean path can hold. */
  predicate Plain(e: string) {
    e != "" && e != "." && e != ".." && '/' !in e
  }

  /** The elements left after applying `.`, `..` and empty elements to `stack`, in order. */
  function Resolve(stack: seq<string>, elems: seq<string>): (r: seq<string>)
    requires forall i :: 0 <= i < |stack| ==> Plain(stack[i])
    requires forall i :: 0 <= i < |elems| ==> '/' !in elems[i]
    ensures forall i :: 0 <= i < |r| ==> Plain(r[i])
    decreases |elems|
  {
    if |elems| == 0 then stack
    else
      var e := elems[0];
      if e == "" || e == "." then Resolve(stack, elems[1..])
      else if e == ".." then Resolve(if |stack| > 0 then stack[..|stack| - 1] else stack, elems[1..])
      else Resolve(stack + [e], elems[1..])
  }

  predicate Rooted(p: string) {
    |p| > 0 && p[0] == '/'
  }

  /** Go `filepath.Clean` on a rooted path. */
  function Clean(p: string): (r: string)
    requires Rooted(p)
    ensures Rooted(r)
  {
    SplitFree(p, '/');
    "/" + Join(Resolve([], Split(p, '/')), '/')
  }

  /** Go `filepath.Join(base, name)` for a rooted `base`. */
  function JoinPath(base: string, name: string): (r: string)
    requires Rooted(base)
    ensures Rooted(r)
  {
    Clean(base + "/" + name)
  }

  /** A path already made of plain elements: what `Clean` produces. */
  ghost predicate IsClean(p: string) {
    exists elems: seq<string> :: (forall i :: 0 <= i < |elems| ==> Plain(elems[i])) && p == "/" + Join(elems, '/')
  }

  /** Plain elements pass through `Resolve` unchanged. */
  lemma {:induction false} ResolvePlain(stack: seq<string>, elems: seq<string>)
    requires forall i :: 0 <= i < |stack| ==> Plain(stack[i])
    requires forall i :: 0 <= i < |elems| ==> '/' !in elems[i] && Plain(elems[i])
    ensures Resolve(stack, elems) == stack + elems
    decreases |elems|
  {
    if |elems| > 0 {
      ResolvePlain(stack + [elems[0]], elems[1..]);
      assert stack + [elems[0]] + elems[1..] == stack + elems;
    }
  }

  /** Splitting a rooted path gives an empty first element and then the rest split. */
  lemma SplitRooted(rest: string)
    ensures Split("/" + rest, '/') == [""] + Split(rest, '/')
  {
    var p := "/" + rest;
    assert p[0] == '/' && p[1..] == rest;
  }

  /** `Resolve` skips an empty element. */
  lemma ResolveEmpty(elems: seq<string>)
    requires forall i :: 0 <= i < |elems| ==> '/' !in elems[i]
    ensures Resolve([], [""] + elems) == Resolve([], elems)
  {
    assert ([""] + elems)[0] == "" && ([""] + elems)[1..] == elems;
  }

  /** A path of plain elements is clean already. */
  lemma CleanPlain(elems: seq<string>)
    requires forall i :: 0 <= i < |elems| ==> Plain(elems[i])
    ensures Clean("/" + Join(elems, '/')) == "/" + Join(elems, '/')
  {
    if |elems| == 0 {
      CleanRoot();
    } else {
      CleanElems(elems);
    }
  }

  /** The root is clean. */
  lemma CleanRoot()
    ensures Clean("/" + Join([], '/')) == "/" + Join([], '/')
  {
    assert "/" + Join([], '/') == "/" + "";
    SplitRooted("");
    ResolveEmpty([""]);
    ResolveEmpty([]);
    assert Resolve([], Split("/" + "", '/')) == [];
  }

  lemma CleanElems(elems: seq<string>)
    requires |elems| > 0 && forall i :: 0 <= i < |elems| ==> Plain(elems[i])
    ensures Clean("/" + Join(elems, '/')) == "/" + Join(elems, '/')
  {
    ResolveJoined(elems);
  }

  /** Splitting a rooted join of plain elements and resolving it gives the elements back. */
  lemma ResolveJoined(elems: seq<string>)
    requires |elems| > 0 && forall i :: 0 <= i < |elems| ==> Plain(elems[i])
    ensures forall i :: 0 <= i < |Split("/" + Join(elems, '/'), '/')| ==> '/' !in Split("/" + Join(elems, '/'), '/')[i]
    ensures Resolve([], Split("/" + Join(elems, '/'), '/')) == elems
  {
    var j := Join(elems, '/');
    SplitRooted(j);
    SplitJoin(elems, '/');
    ResolveEmpty(elems);
    ResolvePlain([], elems);
  }

  /** What `Clean` returns is clean, and cleaning it again changes nothing. */
  lemma CleanIdempotent(p: string)
    requires Rooted(p)
    ensures IsClean(Clean(p))
    ensures Clean(Clean(p)) == Clean(p)
  {
    SplitFree(p, '/');
    var elems := Resolve([], Split(p, '/'));
    CleanPlain(elems);
  }

  /** Joining a clean base below the root and a plain name is putting a `/` between them. */
  lemma JoinPlain(base: seq<string>, name: string)
    requires |base| > 0 && forall i :: 0 <= i < |base| ==> Plain(base[i])
    requires Plain(name)
    ensures JoinPath("/" + Join(base, '/'), name) == "/" + Join(base, '/') + "/" + name
  {
    var elems := base + [name];
    PlainSnoc(base, name);
    JoinSnoc(base, name, '/');
    Slashes(Join(base, '/'), name);
    CleanElems(elems);
    assert "/" + Join(base, '/') + "/" + name == "/" + Join(elems, '/');
  }

  lemma PlainSnoc(base: seq<string>, name: string)
    requires forall i :: 0 <= i < |base| ==> Plain(base[i])
    requires Plain(name)
    ensures forall i :: 0 <= i < |base + [name]| ==> Plain((base + [name])[i])
  {
    forall i | 0 <= i < |base + [name]|
      ensures Plain((base + [name])[i])
    {
      if i < |base| {
        assert (base + [name])[i] == base[i];
      } else {
        assert (base + [name])[i] == name;
      }
    }
  }

  lemma Slashes(a: string, b: string)
    ensures "/" + a + "/" + b == "/" + (a + ['/'] + b)
  {
  }

  /** `Join` with one more part at the end. */
  lemma {:induction false} JoinSnoc(parts: seq<string>, x: string, c: char)
    requires |parts| > 0
    ensures Join(parts + [x], c) == Join(parts, c) + [c] + x
    decreases |parts|
  {
    if |parts| > 1 {
      JoinSnoc(parts[1..], x, c);
      assert (parts + [x])[1..] == parts[1..] + [x];
    }
  }
}
