/**
 * The `InfoParser` cursor over an info-protocol response: Go's `bufio.Reader` over a
 * `strings.Reader`, reduced to the text not yet consumed.  Every operation takes that
 * remaining text and returns what it read together with the text left after it.
 * Each character of the text stands for one byte of the response, as it does for the
 * ASCII replies Aerospike sends, so the lengths below count bytes.
 */
module InfoParser {
  import opened Wrappers
  import opened Strings

  /** bufio's default buffer size; `Peek` cannot look further ahead than this. */
  const BufferSize: nat := 4096

  /** `n` NUL bytes: the zeroed tail of a Go byte slice that a short read left unfilled. */
  function Nuls(n: nat): (z: string)
    ensures |z| == n
    ensures forall i :: 0 <= i < n ==> z[i] == '\0'
  {
    if n == 0 then "" else Nuls(n - 1) + ['\0']
  }

  function Min(a: nat, b: nat): nat {
    if a <= b then a else b
  }

  /** The outcome of `Expect`: whether the bytes read matched, and the text left after the read. */
  datatype Expectation = Expectation(ok: bool, rest: string)

  /**
   * `Expect(lit)`: one `Read` into a zeroed buffer of `|lit|` bytes, then a comparison.
   * The bytes are consumed whether or not they match; at end of input nothing is read
   * and the read itself fails.
   */
  function Expect(rem: string, lit: string): (r: Expectation)
    ensures |lit| > 0 && |rem| == 0 ==> !r.ok && r.rest == rem
    ensures |rem| > 0 ==> r.rest == rem[Min(|lit|, |rem|)..]
    ensures |lit| <= |rem| ==> (r.ok <==> rem[..|lit|] == lit)
    ensures |lit| == 0 ==> r.ok && r.rest == rem
  {
    if |lit| == 0 then Expectation(true, rem)
    else if |rem| == 0 then Expectation(false, rem)
    else
      var n := Min(|lit|, |rem|);
      assert n == |lit| ==> rem[..n] + Nuls(|lit| - n) == rem[..n];
      Expectation(rem[..n] + Nuls(|lit| - n) == lit, rem[n..])
  }

  /**
   * `PeekAndExpect(lit)`: succeeds exactly when the next `|lit|` bytes are available, fit in
   * the buffer and equal `lit`.  It returns no remaining text: the cursor never moves.
   */
  function PeekAndExpect(rem: string, lit: string): (ok: bool)
    ensures ok ==> |lit| <= |rem| && rem[..|lit|] == lit
    ensures |lit| <= BufferSize && |lit| <= |rem| && rem[..|lit|] == lit ==> ok
  {
    if |lit| > BufferSize then false
    else if |rem| < |lit| then false
    else rem[..|lit|] == lit
  }

  /** `Expect` of one byte that is not next consumes that byte and fails. */
  lemma ExpectMismatch(rem: string, ch: char)
    requires |rem| > 0 && rem[0] != ch
    ensures Expect(rem, [ch]) == Expectation(false, rem[1..])
  {
    assert rem[..1][0] == rem[0];
  }

  /** `PeekAndExpect` fails as soon as the next byte differs from the literal's first. */
  lemma PeekMismatch(rem: string, lit: string)
    requires |rem| > 0 && |lit| > 0 && rem[0] != lit[0]
    ensures !PeekAndExpect(rem, lit)
  {
    if |lit| <= |rem| {
      assert rem[..|lit|][0] == rem[0];
    }
  }

  /** What `ReadUntil` returns: the text, the input left, and whether `err` was `io.EOF`. */
  datatype Chunk = Chunk(text: string, rest: string, eof: bool)

  /** Go `ReadBytes(d)`: everything through the first `d`, or all that is left and `io.EOF`. */
  function ReadBytes(rem: string, d: char): (r: Chunk)
    ensures r.eof ==> r.rest == ""
    ensures !r.eof ==> |r.rest| < |rem|
  {
    if |rem| == 0 then Chunk("", "", true)
    else if rem[0] == d then Chunk([d], rem[1..], false)
    else
      var c := ReadBytes(rem[1..], d);
      Chunk([rem[0]] + c.text, c.rest, c.eof)
  }

  /** `ReadBytes` through a `d`: the `d`-free text, the `d`, and what is left make up the input. */
  lemma {:induction false} ReadBytesFound(rem: string, d: char)
    requires d in rem
    ensures var r := ReadBytes(rem, d);
      !r.eof && |r.text| > 0 && rem == r.text[..|r.text| - 1] + [d] + r.rest
      && d !in r.text[..|r.text| - 1]
    decreases |rem|
  {
    if rem[0] != d {
      assert d in rem[1..];
      ReadBytesFound(rem[1..], d);
      FoundCons(rem, d, ReadBytes(rem[1..], d));
    }
  }

  /** A byte before the `d` goes in front of the text the rest reads. */
  lemma FoundCons(rem: string, d: char, c: Chunk)
    requires |rem| > 0 && rem[0] != d && c == ReadBytes(rem[1..], d)
    requires !c.eof && |c.text| > 0 && rem[1..] == c.text[..|c.text| - 1] + [d] + c.rest
    requires d !in c.text[..|c.text| - 1]
    ensures var r := ReadBytes(rem, d);
      !r.eof && |r.text| > 0 && rem == r.text[..|r.text| - 1] + [d] + r.rest
      && d !in r.text[..|r.text| - 1]
  {
    assert ReadBytes(rem, d) == Chunk([rem[0]] + c.text, c.rest, false);
    ConsText(rem[0], c.text, d, c.rest, rem[1..]);
    assert rem == [rem[0]] + rem[1..];
  }

  lemma ConsText(x: char, text: string, d: char, rest: string, tail: string)
    requires |text| > 0 && x != d
    requires tail == text[..|text| - 1] + [d] + rest && d !in text[..|text| - 1]
    ensures var t := [x] + text;
      [x] + tail == t[..|t| - 1] + [d] + rest && d !in t[..|t| - 1]
  {
    var t := [x] + text;
    assert t[..|t| - 1] == [x] + text[..|text| - 1];
  }

  /** Without a `d` ahead, `ReadBytes` returns all that is left and `io.EOF`. */
  lemma {:induction false} ReadBytesAbsent(rem: string, d: char)
    requires d !in rem
    ensures ReadBytes(rem, d) == Chunk(rem, "", true)
    decreases |rem|
  {
    if |rem| > 0 {
      assert d !in rem[1..];
      ReadBytesAbsent(rem[1..], d);
      assert rem == [rem[0]] + rem[1..];
    }
  }

  /**
   * `ReadUntil(d)`: the text before the first `d`, consuming the `d` too.  Without a `d`
   * it reports `io.EOF` and returns the rest of the input minus its last byte (a lone
   * last byte is returned as it is).
   */
  function ReadUntil(rem: string, d: char): (r: Chunk)
    ensures r.eof ==> r.rest == ""
    ensures !r.eof ==> |r.rest| < |rem|
  {
    var v := ReadBytes(rem, d);
    var text :=
      if |v.text| == 0 then v.text
      else if |v.text| == 1 then (if v.text[0] == d then "" else v.text)
      else v.text[..|v.text| - 1];
    Chunk(text, v.rest, v.eof)
  }

  /** What `ReadUntil` promises with and without a `d` ahead. */
  lemma ReadUntilSpec(rem: string, d: char)
    ensures d in rem ==> var r := ReadUntil(rem, d);
      !r.eof && rem == r.text + [d] + r.rest && d !in r.text
    ensures d !in rem ==> var r := ReadUntil(rem, d);
      r.eof && r.rest == "" && r.text == (if |rem| <= 1 then rem else rem[..|rem| - 1])
  {
    if d in rem {
      ReadBytesFound(rem, d);
    } else {
      ReadBytesAbsent(rem, d);
    }
  }

  /** On `a + [d] + b` with a `d`-free `a`, `ReadUntil(d)` returns `a` and leaves `b`. */
  lemma ReadUntilFound(a: string, d: char, b: string)
    requires d !in a
    ensures ReadUntil(a + [d] + b, d) == Chunk(a, b, false)
  {
    var s := a + [d] + b;
    assert s[|a|] == d;
    ReadUntilSpec(s, d);
    var r := ReadUntil(s, d);
    ConcatUnique(a, r.text, d, b, r.rest);
  }

  /** A `d`-free text followed by `d` is determined by the whole. */
  lemma ConcatUnique(a: string, a2: string, d: char, b: string, b2: string)
    requires d !in a && d !in a2
    requires a + [d] + b == a2 + [d] + b2
    ensures a == a2 && b == b2
  {
    var s := a + [d] + b;
    assert s[|a|] == d && s[|a2|] == d;
    if |a| == |a2| {
      assert a == s[..|a|] == a2;
      assert b == s[|a| + 1..] == b2;
    }
  }

  /** On `lit + b`, `Expect(lit)` succeeds and leaves `b`. */
  lemma ExpectFound(lit: string, b: string)
    requires |lit| > 0
    ensures Expect(lit + b, lit) == Expectation(true, b)
  {
    assert (lit + b)[..|lit|] == lit;
    assert (lit + b)[|lit|..] == b;
  }
}
