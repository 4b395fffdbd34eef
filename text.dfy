/**
 * The string operations the n-gram parser relies on: `str.lower()`,
 * `str.split()` with no separator, and `" ".join(...)`. The source runs on
 * Python 2 byte strings, for which lower-casing and whitespace are ASCII.
 */
module Text {

  /** Whitespace as `isspace` sees it on a byte string: space, tab, line feed,
      vertical tab, form feed and carriage return. */
  predicate IsSpace(c: char) {
    c == ' ' || '\t' <= c <= '\r'
  }

  function LowerChar(c: char): char {
    if 'A' <= c <= 'Z' then (c as int + 32) as char else c
  }

  /** `s.lower()`: every upper-case ASCII letter replaced by its lower-case form. */
  function Lower(s: string): string {
    seq(|s|, i requires 0 <= i < |s| => LowerChar(s[i]))
  }

  predicate IsLowerCase(s: string) {
    forall i :: 0 <= i < |s| ==> !('A' <= s[i] <= 'Z')
  }

  /** A token that `split()` can produce: non-empty, without whitespace. */
  predicate IsToken(w: string) {
    w != [] && forall i :: 0 <= i < |w| ==> !IsSpace(w[i])
  }

  /** The maximal run of non-whitespace characters at the start of `s`. */
  function Word(s: string): (w: string)
    ensures w <= s
    ensures forall i :: 0 <= i < |w| ==> !IsSpace(w[i])
    ensures |w| < |s| ==> IsSpace(s[|w|])
  {
    if s == [] || IsSpace(s[0]) then [] else [s[0]] + Word(s[1..])
  }

  /** `s.split()`: the maximal runs of non-whitespace characters, in order;
      leading, trailing and repeated whitespace produce no empty tokens. */
  function Split(s: string): (ws: seq<string>)
    ensures forall k :: 0 <= k < |ws| ==> IsToken(ws[k])
    decreases |s|
  {
    if s == [] then []
    else if IsSpace(s[0]) then Split(s[1..])
    else var w := Word(s); [w] + Split(s[|w|..])
  }

  /** `" ".join(ws)`. */
  function Join(ws: seq<string>): string {
    if ws == [] then ""
    else if |ws| == 1 then ws[0]
    else ws[0] + " " + Join(ws[1..])
  }

  lemma LowerIsLowerCase(s: string)
    ensures |Lower(s)| == |s| && IsLowerCase(Lower(s))
  {
  }

  lemma LowerCons(c: char, s: string)
    ensures Lower([c] + s) == [LowerChar(c)] + Lower(s)
  {
    assert forall i :: 0 <= i < |s| ==> ([c] + s)[i + 1] == s[i];
  }

  /** Lower-case text is left as it is. */
  lemma LowerOfLowerCase(s: string)
    requires IsLowerCase(s)
    ensures Lower(s) == s
  {
  }

  /** Lower-casing twice is lower-casing once. */
  lemma {:induction false} LowerIdempotent(s: string)
    ensures Lower(Lower(s)) == Lower(s)
  {
    var l := Lower(s);
    assert forall i :: 0 <= i < |l| ==> Lower(l)[i] == l[i];
  }

  /** Lower-casing neither creates nor removes whitespace. */
  lemma LowerKeepsSpaces(s: string)
    ensures |Lower(s)| == |s|
    ensures forall i :: 0 <= i < |s| ==> (IsSpace(Lower(s)[i]) <==> IsSpace(s[i]))
  {
  }

  /** The first word of the lower-cased text is the lower-cased first word. */
  lemma {:induction false} WordOfLower(s: string)
    ensures Word(Lower(s)) == Lower(Word(s))
    decreases |s|
  {
    if s != [] {
      LowerCons(s[0], s[1..]);
      assert s == [s[0]] + s[1..];
      if !IsSpace(s[0]) {
        WordOfLower(s[1..]);
        LowerCons(s[0], Word(s[1..]));
      }
    }
  }

  lemma LowerSuffix(s: string, k: nat)
    requires k <= |s|
    ensures Lower(s)[k..] == Lower(s[k..])
  {
  }

  /** Lower-casing moves no token boundary: the tokens of the lower-cased
      text are the lower-cased tokens of the text. */
  lemma {:induction false} SplitLower(s: string)
    ensures |Split(Lower(s))| == |Split(s)|
    ensures forall k :: 0 <= k < |Split(s)| ==> Split(Lower(s))[k] == Lower(Split(s)[k])
    decreases |s|
  {
    if s != [] {
      var l := Lower(s);
      assert l[0] == LowerChar(s[0]);
      LowerSuffix(s, 1);
      if IsSpace(s[0]) {
        SplitLower(s[1..]);
      } else {
        var w := Word(s);
        WordOfLower(s);
        LowerSuffix(s, |w|);
        SplitLower(s[|w|..]);
      }
    }
  }

  lemma {:induction false} WordOfToken(w: string, rest: string)
    requires forall i :: 0 <= i < |w| ==> !IsSpace(w[i])
    requires rest == [] || IsSpace(rest[0])
    ensures Word(w + rest) == w
  {
    if w != [] {
      assert (w + rest)[1..] == w[1..] + rest;
      WordOfToken(w[1..], rest);
    }
  }

  /** A token splits into itself. */
  lemma SplitOfToken(w: string)
    requires IsToken(w)
    ensures Split(w) == [w]
  {
    WordOfToken(w, []);
    assert w + [] == w;
  }

  /** The first word of `a` is unchanged by appending text that starts with
      whitespace. */
  lemma {:induction false} WordAppend(a: string, t: string)
    requires t != [] && IsSpace(t[0])
    ensures Word(a + t) == Word(a)
    decreases |a|
  {
    if a != [] {
      assert (a + t)[0] == a[0];
      assert (a + t)[1..] == a[1..] + t;
      WordAppend(a[1..], t);
    }
  }

  /** `split()` loses no text at a space: splitting two texts joined by a
      space gives the tokens of the first followed by those of the second. */
  lemma {:induction false} SplitAtSpace(a: string, b: string)
    ensures Split(a + " " + b) == Split(a) + Split(b)
    decreases |a|
  {
    var s := a + " " + b;
    if a == [] {
      assert s[1..] == b;
    } else if IsSpace(a[0]) {
      assert s[0] == a[0];
      assert s[1..] == a[1..] + " " + b;
      calc {
        Split(s);
        Split(a[1..] + " " + b);
        { SplitAtSpace(a[1..], b); }
        Split(a[1..]) + Split(b);
        Split(a) + Split(b);
      }
    } else {
      var w := Word(a);
      assert s[0] == a[0];
      assert s == a + (" " + b);
      WordAppend(a, " " + b);
      assert s[|w|..] == a[|w|..] + " " + b;
      calc {
        Split(s);
        [w] + Split(s[|w|..]);
        [w] + Split(a[|w|..] + " " + b);
        { SplitAtSpace(a[|w|..], b); }
        [w] + (Split(a[|w|..]) + Split(b));
        ([w] + Split(a[|w|..])) + Split(b);
        Split(a) + Split(b);
      }
    }
  }

  /** Splitting a space-joined list of tokens gives the tokens back. */
  lemma {:induction false} SplitJoin(ws: seq<string>)
    requires forall k :: 0 <= k < |ws| ==> IsToken(ws[k])
    ensures Split(Join(ws)) == ws
  {
    if |ws| == 1 {
      SplitOfToken(ws[0]);
    } else if |ws| > 1 {
      calc {
        Split(Join(ws));
        Split(ws[0] + " " + Join(ws[1..]));
        { SplitAtSpace(ws[0], Join(ws[1..])); }
        Split(ws[0]) + Split(Join(ws[1..]));
        { SplitOfToken(ws[0]); SplitJoin(ws[1..]); }
        [ws[0]] + ws[1..];
        ws;
      }
    }
  }

  /** Two token lists join to the same string only if they are equal: joining n-gram windows with a space never makes two distinct
      windows collide. */
  lemma JoinInjective(a: seq<string>, b: seq<string>)
    requires forall k :: 0 <= k < |a| ==> IsToken(a[k])
    requires forall k :: 0 <= k < |b| ==> IsToken(b[k])
    ensures Join(a) == Join(b) <==> a == b
  {
    SplitJoin(a);
    SplitJoin(b);
  }
}
