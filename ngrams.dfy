/**
 * The n-gram feature pipeline used for document similarity: a sequencer that
 * hands out dense ids in first-seen order, an n-gram space that turns a text
 * into the sorted set of ids of its n-token windows, the merge that counts the
 * ids two sorted lists share, and the Jaccard similarity built on that count.
 */
module NGrams {
  import opened Wrappers
  import opened Text

  // ---------------------------------------------------------------------------
  // Sequences as sets

  function Elems<T>(s: seq<T>): set<T> {
    set x | x in s
  }

  predicate StrictlyAscending(s: seq<int>) {
    forall i, j :: 0 <= i < j < |s| ==> s[i] < s[j]
  }

  predicate Distinct<T(==)>(s: seq<T>) {
    forall i, j :: 0 <= i < j < |s| ==> s[i] != s[j]
  }

  lemma ElemsCons<T>(s: seq<T>)
    requires s != []
    ensures Elems(s) == {s[0]} + Elems(s[1..])
  {
    assert s == [s[0]] + s[1..];
  }

  lemma ElemsSnoc<T>(s: seq<T>, x: T)
    ensures Elems(s + [x]) == Elems(s) + {x}
  {
  }

  /** A list without duplicates has as many elements as its set. */
  lemma {:induction false} DistinctCard<T>(s: seq<T>)
    requires Distinct(s)
    ensures |Elems(s)| == |s|
  {
    if s != [] {
      ElemsCons(s);
      DistinctCard(s[1..]);
      assert s[0] !in Elems(s[1..]);
    }
  }

  predicate IsLeast(m: int, s: set<int>) {
    m in s && forall y :: y in s ==> m <= y
  }

  lemma {:induction false} HasLeast(s: set<int>)
    requires s != {}
    ensures exists m :: IsLeast(m, s)
  {
    if forall e :: e !in s {
      assert false;
    }
    var x :| x in s;
    if s != {x} {
      HasLeast(s - {x});
      var m :| IsLeast(m, s - {x});
      var least := if x < m then x else m;
      forall y | y in s
        ensures least <= y
      {
        if y != x { assert y in s - {x}; }
      }
      assert IsLeast(least, s);
    } else {
      assert IsLeast(x, s);
    }
  }

  /** The least element of a non-empty finite set of ids. */
  function SetMin(s: set<int>): (m: int)
    requires s != {}
    ensures IsLeast(m, s)
  {
    HasLeast(s);
    var m :| IsLeast(m, s);
    m
  }

  /** `list(ids)` followed by `sort()`: the ids of a set in ascending order. */
  function SortedList(s: set<int>): (r: seq<int>)
    ensures StrictlyAscending(r) && Elems(r) == s && |r| == |s|
    decreases s
  {
    if s == {} then []
    else
      var m := SetMin(s);
      var rest := SortedList(s - {m});
      assert forall k :: 0 <= k < |rest| ==> rest[k] in Elems(rest);
      SortedCons(m, rest, s);
      [m] + rest
  }

  lemma SortedCons(m: int, rest: seq<int>, s: set<int>)
    requires IsLeast(m, s)
    requires StrictlyAscending(rest) && Elems(rest) == s - {m} && |rest| == |s - {m}|
    ensures StrictlyAscending([m] + rest) && Elems([m] + rest) == s && |[m] + rest| == |s|
  {
    forall k | 0 <= k < |rest|
      ensures m < rest[k]
    {
      assert rest[k] in Elems(rest);
    }
    AscendingCons(m, rest);
    ElemsCons([m] + rest);
    assert ([m] + rest)[1..] == rest;
  }

  lemma AscendingCons(m: int, rest: seq<int>)
    requires StrictlyAscending(rest)
    requires forall k :: 0 <= k < |rest| ==> m < rest[k]
    ensures StrictlyAscending([m] + rest)
  {
  }

  /** Two strictly ascending lists with the same elements are the same list. */
  lemma {:induction false} AscendingDeterminedByElems(a: seq<int>, b: seq<int>)
    requires StrictlyAscending(a) && StrictlyAscending(b)
    requires Elems(a) == Elems(b)
    ensures a == b
  {
    if a == [] && b != [] {
      ElemsCons(b);
      assert false;
    } else if a != [] && b == [] {
      ElemsCons(a);
      assert false;
    } else if a != [] {
      assert a[0] in Elems(b);
      assert b[0] in Elems(a);
      assert a[0] == b[0];
      ElemsCons(a);
      ElemsCons(b);
      assert a[0] !in Elems(a[1..]);
      assert b[0] !in Elems(b[1..]);
      assert Elems(a[1..]) == Elems(b[1..]);
      AscendingDeterminedByElems(a[1..], b[1..]);
      assert a == [a[0]] + a[1..];
      assert b == [b[0]] + b[1..];
    }
  }

  // ---------------------------------------------------------------------------
  // Sequencer

  /** The keys of a sequencer in first-seen order, after it has sequenced the
      keys `seen` and then, one by one, the keys `ks`. */
  function Sequenced<K(==)>(seen: seq<K>, ks: seq<K>): seq<K>
    decreases |ks|
  {
    if ks == [] then seen
    else
      var s := Sequenced(seen, ks[..|ks| - 1]);
      if ks[|ks| - 1] in s then s else s + [ks[|ks| - 1]]
  }

  /** The state of a sequencer that has seen `keys`, in that order: the i-th
      key seen has id i + 1, nothing else is stored, and the next id is one
      more than the number of keys stored. */
  ghost predicate Dense<K>(data: map<K, int>, keys: seq<K>, nextId: int) {
    && nextId == 1 + |data|
    && |data| == |keys|
    && (forall i :: 0 <= i < |keys| ==> keys[i] in data && data[keys[i]] == i + 1)
    && (forall k :: k in data ==> k in keys)
  }

  predicate Injective<K(==)>(data: map<K, int>) {
    forall a, b :: a in data && b in data && a != b ==> data[a] != data[b]
  }

  /** Every stored id lies in [1, nextId); in particular none is 0, so the
      source's truthiness test on a looked-up id means "the key is present". */
  lemma DenseIdsInRange<K>(data: map<K, int>, keys: seq<K>, nextId: int)
    requires Dense(data, keys, nextId)
    ensures forall k :: k in data ==> 1 <= data[k] < nextId
  {
    forall k | k in data
      ensures 1 <= data[k] < nextId
    {
      var i :| 0 <= i < |keys| && keys[i] == k;
    }
  }

  /** Distinct keys have distinct ids. */
  lemma DenseInjective<K>(data: map<K, int>, keys: seq<K>, nextId: int)
    requires Dense(data, keys, nextId)
    ensures Injective(data)
    ensures Distinct(keys)
  {
    forall a, b | a in data && b in data && a != b
      ensures data[a] != data[b]
    {
      var i :| 0 <= i < |keys| && keys[i] == a;
      var j :| 0 <= j < |keys| && keys[j] == b;
    }
  }

  /** The ids handed out so far are exactly 1, 2, ..., nextId - 1. */
  lemma DenseOnto<K>(data: map<K, int>, keys: seq<K>, nextId: int)
    requires Dense(data, keys, nextId)
    ensures forall v :: 1 <= v < nextId ==> v in data.Values
  {
    forall v | 1 <= v < nextId
      ensures v in data.Values
    {
      assert keys[v - 1] in data && data[keys[v - 1]] == v;
    }
  }

  /** Sequencing only appends: the keys seen before keep their place, and the
      keys afterwards are the old ones together with the new ones. */
  lemma {:induction false} SequencedExtends<K>(seen: seq<K>, ks: seq<K>)
    ensures seen <= Sequenced(seen, ks)
    ensures Elems(Sequenced(seen, ks)) == Elems(seen) + Elems(ks)
    decreases |ks|
  {
    if ks != [] {
      var init, last := ks[..|ks| - 1], ks[|ks| - 1];
      SequencedExtends(seen, init);
      assert ks == init + [last];
      ElemsSnoc(init, last);
      var s := Sequenced(seen, init);
      if last !in s {
        ElemsSnoc(s, last);
      }
    }
  }

  /** Sequencing keys that have all been seen already changes nothing. */
  lemma {:induction false} SequencedAllSeen<K>(seen: seq<K>, ks: seq<K>)
    requires forall k :: k in ks ==> k in seen
    ensures Sequenced(seen, ks) == seen
    decreases |ks|
  {
    if ks != [] {
      var init := ks[..|ks| - 1];
      assert forall k :: k in init ==> k in ks;
      SequencedAllSeen(seen, init);
    }
  }

  /** Keys never seen before, and distinct among themselves, are appended in
      the order they come: the i-th of them (from 0) gets id |seen| + 1 + i. */
  lemma {:induction false} SequencedFresh<K>(seen: seq<K>, ks: seq<K>)
    requires Distinct(seen + ks)
    ensures Sequenced(seen, ks) == seen + ks
    decreases |ks|
  {
    if ks != [] {
      var init, last := ks[..|ks| - 1], ks[|ks| - 1];
      assert seen + ks == (seen + init) + [last];
      assert Distinct(seen + init) by {
        forall i, j | 0 <= i < j < |seen + init|
          ensures (seen + init)[i] != (seen + init)[j]
        {
          assert (seen + init)[i] == (seen + ks)[i] && (seen + init)[j] == (seen + ks)[j];
        }
      }
      SequencedFresh(seen, init);
      assert last !in seen + init by {
        forall i | 0 <= i < |seen + init|
          ensures (seen + init)[i] != last
        {
          assert (seen + init)[i] == (seen + ks)[i] && last == (seen + ks)[|seen + ks| - 1];
        }
      }
    }
  }

  class Sequencer<K(==)> {
    var nextId: int
    var data: map<K, int>
    /** The keys in the order they were first seen. */
    ghost var keys: seq<K>

    ghost predicate Valid()
      reads this
    {
      Dense(data, keys, nextId)
    }

    constructor ()
      ensures Valid()
      ensures nextId == 1 && data == map[] && keys == []
    {
      nextId := 1;
      data := map[];
      keys := [];
    }

    /** The id of `x`: the one it was given when first seen, or else the next
        id, which is then recorded for it. */
    method Id(x: K) returns (id: int)
      requires Valid()
      modifies this
      ensures Valid()
      ensures keys == Sequenced(old(keys), [x])
      ensures x in data && id == data[x] && 1 <= id < nextId
      ensures forall k :: k in old(data) ==> k in data && data[k] == old(data)[k]
      ensures x in old(data) ==>
        id == old(data)[x] && data == old(data) && nextId == old(nextId)
      ensures x !in old(data) ==>
        id == old(nextId) && data == old(data)[x := id] && nextId == old(nextId) + 1
    {
      var existingId := if x in data then Some(data[x]) else None;
      if existingId.Some? && existingId.value != 0 {
        return existingId.value;
      }
      DenseIdsInRange(data, keys, nextId);
      data := data[x := nextId];
      nextId := nextId + 1;
      keys := keys + [x];
      return nextId - 1;
    }
  }

  /** The first three fresh keys get 1, 2 and 3, and asking again returns the
      same ids. */
  method SequencerScenario() returns (a: int, b: int, c: int, a2: int, b2: int, c2: int)
    ensures a == 1 && b == 2 && c == 3
    ensures a2 == a && b2 == b && c2 == c
  {
    var s := new Sequencer<string>();
    a := s.Id("a");
    assert s.data == map["a" := 1];
    b := s.Id("b");
    assert s.data == map["a" := 1, "b" := 2];
    c := s.Id("c");
    assert s.data == map["a" := 1, "b" := 2, "c" := 3];
    a2 := s.Id("a");
    b2 := s.Id("b");
    c2 := s.Id("c");
  }

  // ---------------------------------------------------------------------------
  // NGramSpace

  /** The tokens of a text: lower-cased, then split on whitespace. */
  function Tokens(text: string): seq<string> {
    Split(Lower(text))
  }

  /** The keys of all windows of `n` consecutive tokens, each joined with a
      single space, from left to right. */
  function WindowKeys(tokens: seq<string>, n: nat): seq<string> {
    if |tokens| + 1 - n <= 0 then []
    else seq(|tokens| + 1 - n, i requires 0 <= i < |tokens| + 1 - n => Join(tokens[i..i + n]))
  }

  /** The ids `data` gives the keys of `ks`. */
  function IdsOf<K(==)>(data: map<K, int>, ks: seq<K>): set<int> {
    set k | k in ks && k in data :: data[k]
  }

  lemma IdsOfStep<K>(data: map<K, int>, data': map<K, int>, ks: seq<K>, k: K)
    requires forall x :: x in ks ==> x in data
    requires forall x :: x in data ==> x in data' && data'[x] == data[x]
    requires k in data'
    ensures IdsOf(data', ks + [k]) == IdsOf(data, ks) + {data'[k]}
  {
  }

  /** Under an injective id map, a list of keys has as many distinct ids as
      it has distinct keys. */
  lemma {:induction false} IdsOfCard<K>(data: map<K, int>, ks: seq<K>)
    requires forall k :: k in ks ==> k in data
    requires Injective(data)
    ensures |IdsOf(data, ks)| == |Elems(ks)|
  {
    if ks != [] {
      var init, last := ks[..|ks| - 1], ks[|ks| - 1];
      assert ks == init + [last];
      assert forall k :: k in init ==> k in ks;
      IdsOfCard(data, init);
      assert IdsOf(data, ks) == IdsOf(data, init) + {data[last]};
      assert Elems(ks) == Elems(init) + {last};
      if last in init {
        assert last in Elems(init);
        assert data[last] in IdsOf(data, init);
        assert IdsOf(data, ks) == IdsOf(data, init);
        assert Elems(ks) == Elems(init);
      } else {
        assert data[last] !in IdsOf(data, init);
      }
    }
  }

  class NGramSpace {
    const n: nat
    const ngrams: Sequencer<string>

    ghost predicate Valid()
      reads this, ngrams
    {
      ngrams.Valid()
    }

    constructor (n: nat)
      ensures Valid() && this.n == n && fresh(ngrams)
      ensures ngrams.keys == [] && ngrams.data == map[] && ngrams.nextId == 1
    {
      this.n := n;
      ngrams := new Sequencer<string>();
    }

    /** The ids of the n-grams of `text`, ascending and without duplicates;
        n-grams not seen before are given fresh ids in the order they occur. */
    method Parse(text: string) returns (ids: seq<int>)
      requires Valid()
      modifies ngrams
      ensures Valid()
      ensures ngrams.keys == Sequenced(old(ngrams.keys), WindowKeys(Tokens(text), n))
      ensures StrictlyAscending(ids)
      ensures Elems(ids) == IdsOf(ngrams.data, WindowKeys(Tokens(text), n))
      ensures |ids| == |Elems(WindowKeys(Tokens(text), n))|
      ensures forall k :: 0 <= k < |ids| ==> 1 <= ids[k] < ngrams.nextId
    {
      var splitText := Split(Lower(text));
      ghost var ks := WindowKeys(splitText, n);
      ghost var start := ngrams.keys;
      WindowKeysLength(splitText, n);
      var idSet: set<int> := {};
      var i := 0;
      while i < |splitText| + 1 - n
        invariant 0 <= i <= |ks|
        invariant ngrams.Valid()
        invariant Scanned(ngrams.data, ngrams.keys, start, ks[..i], idSet)
      {
        idSet := SequenceWindow(splitText, i, start, idSet);
        i := i + 1;
      }
      assert ks[..i] == ks;
      ids := SortedList(idSet);
      ParseResult(ngrams.data, ngrams.keys, ngrams.nextId, ks, ids);
    }

    /** One turn of the loop of `parse`: sequences the window of `tokens`
        starting at `i` and adds its id to `idSet`. */
    method SequenceWindow(tokens: seq<string>, i: nat, ghost start: seq<string>, idSet: set<int>)
      returns (idSet': set<int>)
      requires i < |tokens| + 1 - n
      requires Valid()
      requires Scanned(ngrams.data, ngrams.keys, start, WindowKeys(tokens, n)[..i], idSet)
      modifies ngrams
      ensures Valid()
      ensures Scanned(ngrams.data, ngrams.keys, start, WindowKeys(tokens, n)[..i + 1], idSet')
    {
      ghost var ks := WindowKeys(tokens, n);
      var ngram := Join(tokens[i..i + n]);
      WindowKeyAt(tokens, n, i);
      ghost var dataBefore, keysBefore := ngrams.data, ngrams.keys;
      var id := ngrams.Id(ngram);
      ParseStep(dataBefore, ngrams.data, start, keysBefore, ngrams.keys, ks, i, idSet, id);
      idSet' := idSet + {id};
    }
  }

  /** Once a list of keys has been sequenced, sequencing it again adds
      nothing: re-parsing a text leaves the sequencer as it was. */
  lemma ReparseAddsNothing<K>(seen: seq<K>, ks: seq<K>)
    ensures Sequenced(Sequenced(seen, ks), ks) == Sequenced(seen, ks)
  {
    SequencedExtends(seen, ks);
    assert forall k :: k in ks ==> k in Elems(Sequenced(seen, ks));
    SequencedAllSeen(Sequenced(seen, ks), ks);
  }

  /** The key order of a sequencer determines its whole state. */
  lemma DenseUnique<K>(data: map<K, int>, data': map<K, int>, keys: seq<K>, nextId: int, nextId': int)
    requires Dense(data, keys, nextId) && Dense(data', keys, nextId')
    ensures data == data' && nextId == nextId'
  {
    forall k | k in data
      ensures k in data' && data'[k] == data[k]
    {
      var i :| 0 <= i < |keys| && keys[i] == k;
    }
    assert data.Keys == data'.Keys;
  }

  /** Parsing the same text twice yields the same ids, and the second parse
      leaves the sequencer unchanged. */
  method ParseTwice(space: NGramSpace, text: string) returns (first: seq<int>, second: seq<int>)
    requires space.Valid()
    modifies space.ngrams
    ensures space.Valid()
    ensures first == second
    ensures space.ngrams.keys == Sequenced(old(space.ngrams.keys), WindowKeys(Tokens(text), space.n))
  {
    first := space.Parse(text);
    ghost var data, keys, nextId := space.ngrams.data, space.ngrams.keys, space.ngrams.nextId;
    second := space.Parse(text);
    ReparseAddsNothing(old(space.ngrams.keys), WindowKeys(Tokens(text), space.n));
    DenseUnique(data, space.ngrams.data, keys, nextId, space.ngrams.nextId);
    AscendingDeterminedByElems(first, second);
  }

  lemma WindowKeysLength(tokens: seq<string>, n: nat)
    ensures |WindowKeys(tokens, n)| == if |tokens| + 1 - n <= 0 then 0 else |tokens| + 1 - n
  {
  }

  lemma WindowKeyAt(tokens: seq<string>, n: nat, i: int)
    requires 0 <= i < |tokens| + 1 - n
    ensures i < |WindowKeys(tokens, n)| && WindowKeys(tokens, n)[i] == Join(tokens[i..i + n])
  {
  }

  lemma SequencedSnoc<K>(seen: seq<K>, ks: seq<K>, k: K)
    ensures Sequenced(seen, ks + [k]) == Sequenced(Sequenced(seen, ks), [k])
  {
    assert (ks + [k])[..|ks|] == ks;
  }

  /** The state of the parse loop once it has sequenced the window keys
      `done`, starting from a sequencer that had seen `start`. */
  ghost predicate Scanned<K>(data: map<K, int>, keys: seq<K>, start: seq<K>, done: seq<K>, idSet: set<int>) {
    && keys == Sequenced(start, done)
    && (forall k :: k in done ==> k in data)
    && idSet == IdsOf(data, done)
  }

  /** One turn of the parse loop: sequencing the i-th window key extends the
      key order, keeps every earlier window key stored, and adds its id. */
  lemma ParseStep<K>(data: map<K, int>, data': map<K, int>, start: seq<K>,
                     keys: seq<K>, keys': seq<K>, ks: seq<K>, i: nat, idSet: set<int>, id: int)
    requires i < |ks|
    requires Scanned(data, keys, start, ks[..i], idSet)
    requires keys' == Sequenced(keys, [ks[i]])
    requires forall k :: k in data ==> k in data' && data'[k] == data[k]
    requires ks[i] in data' && data'[ks[i]] == id
    ensures Scanned(data', keys', start, ks[..i + 1], idSet + {id})
  {
    assert ks[..i + 1] == ks[..i] + [ks[i]];
    SequencedSnoc(start, ks[..i], ks[i]);
    IdsOfStep(data, data', ks[..i], ks[i]);
  }

  /** What the parse promises about the sorted ids once every window key has
      been sequenced. */
  lemma ParseResult<K>(data: map<K, int>, keys: seq<K>, nextId: int, ks: seq<K>, ids: seq<int>)
    requires Dense(data, keys, nextId)
    requires forall k :: k in ks ==> k in data
    requires Elems(ids) == IdsOf(data, ks) && |ids| == |IdsOf(data, ks)|
    ensures |ids| == |Elems(ks)|
    ensures forall k :: 0 <= k < |ids| ==> 1 <= ids[k] < nextId
  {
    DenseInjective(data, keys, nextId);
    IdsOfCard(data, ks);
    DenseIdsInRange(data, keys, nextId);
    assert forall k :: 0 <= k < |ids| ==> ids[k] in Elems(ids);
  }

  /** A text whose lower-cased form is the space-joined tokens `ws` splits
      into exactly `ws`. */
  lemma TokensOfJoined(text: string, ws: seq<string>)
    requires forall k :: 0 <= k < |ws| ==> IsToken(ws[k])
    requires Lower(text) == Join(ws)
    ensures Tokens(text) == ws
  {
    SplitJoin(ws);
  }

  lemma FirstSentenceTokens()
    ensures Tokens("This is a sentence") == ["this", "is", "a", "sentence"]
  {
    FirstSentenceLower();
    FirstSentenceJoin();
    TokensOfJoined("This is a sentence", ["this", "is", "a", "sentence"]);
  }

  lemma FirstSentenceLower()
    ensures Lower("This is a sentence") == "this is a sentence"
  {
    LowerCons('T', "his is a sentence");
    LowerOfLowerCase("his is a sentence");
  }

  lemma FirstSentenceJoin()
    ensures Join(["this", "is", "a", "sentence"]) == "this is a sentence"
  {
    assert Join(["sentence"]) == "sentence";
    assert Join(["a", "sentence"]) == "a sentence";
    assert Join(["is", "a", "sentence"]) == "is a sentence";
  }

  lemma SecondSentenceTokens()
    ensures Tokens("This is another sentence") == ["this", "is", "another", "sentence"]
  {
    SecondSentenceLower();
    SecondSentenceJoin();
    TokensOfJoined("This is another sentence", ["this", "is", "another", "sentence"]);
  }

  lemma SecondSentenceLower()
    ensures Lower("This is another sentence") == "this is another sentence"
  {
    LowerCons('T', "his is another sentence");
    LowerOfLowerCase("his is another sentence");
  }

  lemma SecondSentenceJoin()
    ensures Join(["this", "is", "another", "sentence"]) == "this is another sentence"
  {
    assert Join(["sentence"]) == "sentence";
    assert Join(["another", "sentence"]) == "another sentence";
    assert Join(["is", "another", "sentence"]) == "is another sentence";
  }

  /** With n = 1 every token is its own window key. */
  lemma UnigramWindows(tokens: seq<string>)
    ensures WindowKeys(tokens, 1) == tokens
  {
    if tokens != [] {
      forall i | 0 <= i < |tokens|
        ensures WindowKeys(tokens, 1)[i] == tokens[i]
      {
        assert tokens[i..i + 1] == [tokens[i]];
      }
    }
  }

  /** The ids a sequencer holds for the keys it has seen are 1 .. nextId - 1. */
  lemma DenseIdsOfKeys<K>(data: map<K, int>, keys: seq<K>, nextId: int)
    requires Dense(data, keys, nextId)
    ensures forall v :: v in IdsOf(data, keys) <==> 1 <= v < nextId
  {
    forall v | 1 <= v < nextId
      ensures v in IdsOf(data, keys)
    {
      assert keys[v - 1] in keys;
    }
    DenseIdsInRange(data, keys, nextId);
  }

  /** The window keys of the test sentences under unigrams. */
  lemma UnigramExampleKeys()
    ensures WindowKeys(Tokens("This is a sentence"), 1) == ["this", "is", "a", "sentence"]
    ensures WindowKeys(Tokens("This is another sentence"), 1) == ["this", "is", "another", "sentence"]
  {
    FirstSentenceTokens();
    SecondSentenceTokens();
    UnigramWindows(["this", "is", "a", "sentence"]);
    UnigramWindows(["this", "is", "another", "sentence"]);
  }

  lemma FirstUnigramIds(data: map<string, int>, nextId: int)
    requires Dense(data, ["this", "is", "a", "sentence"], nextId)
    ensures IdsOf(data, ["this", "is", "a", "sentence"]) == Elems([1, 2, 3, 4])
  {
    DenseIdsOfKeys(data, ["this", "is", "a", "sentence"], nextId);
    assert forall v :: v in Elems([1, 2, 3, 4]) <==> 1 <= v < 5;
  }

  lemma SecondUnigramIds(data: map<string, int>, nextId: int)
    requires Dense(data, ["this", "is", "a", "sentence", "another"], nextId)
    ensures IdsOf(data, ["this", "is", "another", "sentence"]) == Elems([1, 2, 4, 5])
  {
    var keys := ["this", "is", "a", "sentence", "another"];
    assert data[keys[0]] == 1 && data[keys[1]] == 2 && data[keys[3]] == 4 && data[keys[4]] == 5;
  }

  lemma SecondUnigramKeys()
    ensures Sequenced(["this", "is", "a", "sentence"], ["this", "is", "another", "sentence"])
         == ["this", "is", "a", "sentence", "another"]
  {
    var t1, t2 := ["this", "is", "a", "sentence"], ["this", "is", "another", "sentence"];
    assert t2[..3] == t2[..2] + ["another"];
    assert t2[..3][..2] == t2[..2];
    SequencedAllSeen(t1, t2[..2]);
  }

  lemma FirstUnigramState(keys: seq<string>)
    requires keys == Sequenced([], WindowKeys(Tokens("This is a sentence"), 1))
    ensures keys == ["this", "is", "a", "sentence"]
  {
    UnigramExampleKeys();
    SequencedFresh([], ["this", "is", "a", "sentence"]);
    assert [] + ["this", "is", "a", "sentence"] == ["this", "is", "a", "sentence"];
  }

  lemma SecondUnigramState(keys: seq<string>)
    requires keys == Sequenced(["this", "is", "a", "sentence"], WindowKeys(Tokens("This is another sentence"), 1))
    ensures keys == ["this", "is", "a", "sentence", "another"]
  {
    UnigramExampleKeys();
    SecondUnigramKeys();
  }

  lemma AscendingExamples()
    ensures StrictlyAscending([1, 2, 3, 4]) && StrictlyAscending([1, 2, 4, 5])
  {
  }

  /** Parsing the two test sentences with unigrams numbers the four words of
      the first 1 to 4 and gives the new word of the second the id 5. */
  method UnigramScenario() returns (x: seq<int>, y: seq<int>)
    ensures x == [1, 2, 3, 4] && y == [1, 2, 4, 5]
  {
    var unigrams := new NGramSpace(1);
    x := unigrams.Parse("This is a sentence");
    FirstUnigramState(unigrams.ngrams.keys);
    assert unigrams.ngrams.Valid();
    FirstUnigramIds(unigrams.ngrams.data, unigrams.ngrams.nextId);
    UnigramExampleKeys();
    AscendingExamples();
    AscendingDeterminedByElems(x, [1, 2, 3, 4]);
    y := unigrams.Parse("This is another sentence");
    SecondUnigramState(unigrams.ngrams.keys);
    assert unigrams.ngrams.Valid();
    SecondUnigramIds(unigrams.ngrams.data, unigrams.ngrams.nextId);
    AscendingDeterminedByElems(y, [1, 2, 4, 5]);
  }

  // ---------------------------------------------------------------------------
  // Overlap and similarity

  /** The number of matches the two-pointer merge of `x` and `y` finds. */
  function MergeCount(x: seq<int>, y: seq<int>): (c: nat)
    ensures c <= |x| && c <= |y|
    decreases |x| + |y|
  {
    if x == [] || y == [] then 0
    else if x[0] > y[0] then MergeCount(x, y[1..])
    else if x[0] < y[0] then MergeCount(x[1..], y)
    else 1 + MergeCount(x[1..], y[1..])
  }

  /** `overlap(x, y)`: walks both lists once, counting equal elements. */
  method Overlap(x: seq<int>, y: seq<int>) returns (c: nat)
    ensures c == MergeCount(x, y)
    ensures c <= |x| && c <= |y|
    ensures StrictlyAscending(x) && StrictlyAscending(y) ==> c == |Elems(x) * Elems(y)|
  {
    var i, j := 0, 0;
    c := 0;
    while i < |x| && j < |y|
      invariant 0 <= i <= |x| && 0 <= j <= |y|
      invariant c + MergeCount(x[i..], y[j..]) == MergeCount(x, y)
      decreases |x| - i + |y| - j
    {
      assert x[i..][1..] == x[i + 1..] && y[j..][1..] == y[j + 1..];
      if x[i] > y[j] {
        j := j + 1;
      } else if x[i] < y[j] {
        i := i + 1;
      } else {
        c := c + 1;
        i := i + 1;
        j := j + 1;
      }
    }
    assert x[i..] == [] || y[j..] == [];
    if StrictlyAscending(x) && StrictlyAscending(y) {
      MergeCountIsIntersection(x, y);
    }
  }

  /** On strictly ascending lists the merge counts exactly the common elements. */
  lemma {:induction false} MergeCountIsIntersection(x: seq<int>, y: seq<int>)
    requires StrictlyAscending(x) && StrictlyAscending(y)
    ensures MergeCount(x, y) == |Elems(x) * Elems(y)|
    decreases |x| + |y|
  {
    if x == [] || y == [] {
      assert Elems(x) * Elems(y) == {};
    } else if x[0] > y[0] {
      MergeCountIsIntersection(x, y[1..]);
      CommonSkipSmaller(y, x);
      assert Elems(x) * Elems(y) == Elems(y) * Elems(x);
      assert Elems(y[1..]) * Elems(x) == Elems(x) * Elems(y[1..]);
    } else if x[0] < y[0] {
      MergeCountIsIntersection(x[1..], y);
      CommonSkipSmaller(x, y);
    } else {
      MergeCountIsIntersection(x[1..], y[1..]);
      CommonSkipEqual(x, y);
    }
  }

  /** The smaller of the two heads is in neither list's tail, so it can be
      dropped without changing the common elements. */
  lemma CommonSkipSmaller(x: seq<int>, y: seq<int>)
    requires StrictlyAscending(x) && StrictlyAscending(y)
    requires x != [] && y != [] && x[0] < y[0]
    ensures Elems(x) * Elems(y) == Elems(x[1..]) * Elems(y)
  {
    ElemsCons(x);
    assert x[0] !in Elems(y);
  }

  /** Equal heads are common, and appear in neither tail. */
  lemma CommonSkipEqual(x: seq<int>, y: seq<int>)
    requires StrictlyAscending(x) && StrictlyAscending(y)
    requires x != [] && y != [] && x[0] == y[0]
    ensures Elems(x) * Elems(y) == {x[0]} + Elems(x[1..]) * Elems(y[1..])
    ensures x[0] !in Elems(x[1..]) * Elems(y[1..])
  {
    ElemsCons(x);
    ElemsCons(y);
  }

  /** The merge is symmetric on all inputs, sorted or not. */
  lemma {:induction false} MergeCountSymmetric(x: seq<int>, y: seq<int>)
    ensures MergeCount(x, y) == MergeCount(y, x)
    decreases |x| + |y|
  {
    if x != [] && y != [] {
      if x[0] > y[0] {
        MergeCountSymmetric(x, y[1..]);
      } else if x[0] < y[0] {
        MergeCountSymmetric(x[1..], y);
      } else {
        MergeCountSymmetric(x[1..], y[1..]);
      }
    }
  }

  /** A list overlaps itself completely. */
  lemma {:induction false} MergeCountSelf(x: seq<int>)
    ensures MergeCount(x, x) == |x|
  {
    if x != [] {
      MergeCountSelf(x[1..]);
    }
  }

  /** `jaccard(x, y)`: shared elements over the size of the union, or 0 when
      both lists are empty. */
  function Jaccard(x: seq<int>, y: seq<int>): (r: real)
    ensures 0.0 <= r <= 1.0
    ensures r == 0.0 <==> MergeCount(x, y) == 0
  {
    var intersectionSize := MergeCount(x, y);
    var unionSize := |x| + |y| - intersectionSize;
    if unionSize != 0 then
      RatioAtMostOne(intersectionSize as real, unionSize as real);
      intersectionSize as real / unionSize as real
    else 0.0
  }

  lemma RatioAtMostOne(a: real, b: real)
    requires 0.0 <= a <= b && b > 0.0
    ensures 0.0 <= a / b <= 1.0
  {
    assert a / b * b == a;
  }

  lemma JaccardSymmetric(x: seq<int>, y: seq<int>)
    ensures Jaccard(x, y) == Jaccard(y, x)
  {
    MergeCountSymmetric(x, y);
  }

  /** A non-empty list is fully similar to itself; two empty lists have
      similarity 0. */
  lemma JaccardSelf(x: seq<int>)
    ensures Jaccard(x, x) == if x == [] then 0.0 else 1.0
  {
    MergeCountSelf(x);
  }

  /** On strictly ascending lists, Jaccard similarity is the size of the
      intersection of their sets over the size of the union. */
  lemma JaccardIsIntersectionOverUnion(x: seq<int>, y: seq<int>)
    requires StrictlyAscending(x) && StrictlyAscending(y)
    ensures Elems(x) + Elems(y) == {} ==> Jaccard(x, y) == 0.0
    ensures Elems(x) + Elems(y) != {} ==>
      Jaccard(x, y) == |Elems(x) * Elems(y)| as real / |Elems(x) + Elems(y)| as real
  {
    MergeCountIsIntersection(x, y);
    DistinctCard(x);
    DistinctCard(y);
  }

  /** On strictly ascending lists, the similarity is 0 exactly when the lists
      share no element. */
  lemma JaccardZeroIffDisjoint(x: seq<int>, y: seq<int>)
    requires StrictlyAscending(x) && StrictlyAscending(y)
    ensures Jaccard(x, y) == 0.0 <==> Elems(x) * Elems(y) == {}
  {
    MergeCountIsIntersection(x, y);
  }

  /** The similarities worked out for the two test sentences with unigrams,
      bigrams and trigrams. */
  lemma JaccardExamples()
    ensures Jaccard([1, 2, 3, 4], [1, 2, 4, 5]) == 3.0 / 5.0
    ensures Jaccard([1, 2, 3], [1, 4, 5]) == 1.0 / 5.0
    ensures Jaccard([1, 2], [3, 4]) == 0.0
  {
  }
}
