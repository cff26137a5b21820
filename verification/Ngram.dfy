/** N-gram keys of a text (ngram.go): words split at white space, normalized, and each window of
    runes packed or hashed into a key. Unicode's tables and the hash are parameters. */
module Ngram {
  import Bytes

  type Text = seq<nat>

  /** White space, letters and digits, the lower-case mapping, and the hash of a window. */
  datatype Tables = Tables(space: nat -> bool, kept: nat -> bool, lower: nat -> nat, hash: seq<nat> -> nat)

  // ----- words -----

  /** The maximal runs without white space, in order: the library's field split. `word` is the run
      that ends where `text` begins. */
  function FieldsFrom(u: Tables, word: Text, text: Text): seq<Text>
    decreases |text|
  {
    if text == [] then (if word == [] then [] else [word])
    else if u.space(text[0]) then (if word == [] then [] else [word]) + FieldsFrom(u, [], text[1..])
    else FieldsFrom(u, word + [text[0]], text[1..])
  }

  function Fields(u: Tables, text: Text): seq<Text> {
    FieldsFrom(u, [], text)
  }

  /** A maximal run without white space. */
  ghost predicate IsField(u: Tables, text: Text, i: nat, j: nat) {
    && i < j <= |text| && (forall k :: i <= k < j ==> !u.space(text[k]))
    && (i == 0 || u.space(text[i - 1])) && (j == |text| || u.space(text[j]))
  }

  lemma FieldsOfOne(u: Tables, word: Text, more: Text, i: nat, j: nat)
    requires (forall k :: 0 <= k < |word| ==> !u.space(word[k])) && (more == [] || u.space(more[0])) && j <= |word|
    ensures IsField(u, word + more, i, j) <==> i == 0 && j == |word| && word != []
  {
    var text := word + more;
    assert forall k :: 0 <= k < |word| ==> text[k] == word[k];
    assert more != [] ==> text[|word|] == more[0];
  }

  lemma FieldShift(u: Tables, head: Text, rest: Text, i: nat, j: nat)
    requires head != [] && u.space(head[|head| - 1])
    ensures IsField(u, rest, i, j) <==> IsField(u, head + rest, i + |head|, j + |head|)
  {
    var text, n := head + rest, |head|;
    assert forall k :: 0 <= k < |rest| ==> text[n + k] == rest[k];
    if IsField(u, text, i + n, j + n) {
      forall k | i <= k < j ensures !u.space(rest[k]) {
        assert !u.space(text[n + k]);
      }
    }
  }

  /** No field reaches across white space. */
  lemma FieldSides(u: Tables, text: Text, at: nat, i: nat, j: nat)
    requires at < |text| && u.space(text[at]) && IsField(u, text, i, j)
    ensures j <= at || i > at
  {
  }

  ghost predicate FieldAt(u: Tables, text: Text, w: Text, i: nat, j: nat) {
    IsField(u, text, i, j) && text[i..j] == w
  }

  lemma {:induction false} FieldsFromMean(u: Tables, word: Text, text: Text, w: Text)
    requires forall k :: 0 <= k < |word| ==> !u.space(word[k])
    ensures w in FieldsFrom(u, word, text) <==> exists i: nat, j: nat :: FieldAt(u, word + text, w, i, j)
    decreases |text|
  {
    var full := word + text;
    if text == [] {
      LastField(u, word, w);
    } else if u.space(text[0]) {
      var rest, head := text[1..], word + [text[0]];
      assert full == head + rest == word + text;
      FieldsFromMean(u, [], rest, w);
      assert [] + rest == rest;
      FieldsSplit(u, word, text, w);
    } else {
      assert word + [text[0]] + text[1..] == full;
      FieldsFromMean(u, word + [text[0]], text[1..], w);
    }
  }

  lemma LastField(u: Tables, word: Text, w: Text)
    requires forall k :: 0 <= k < |word| ==> !u.space(word[k])
    ensures (word != [] && w == word) <==> exists i: nat, j: nat :: FieldAt(u, word + [], w, i, j)
  {
    assert word + [] == word;
    FieldsOfOne(u, word, [], 0, |word|);
    assert word[0..|word|] == word;
    if word != [] && w == word {
      assert FieldAt(u, word + [], w, 0, |word|);
    }
    if i: nat, j: nat :| FieldAt(u, word + [], w, i, j) {
      FieldsOfOne(u, word, [], i, j);
    }
  }

  lemma FieldsSplit(u: Tables, word: Text, text: Text, w: Text)
    requires (forall k :: 0 <= k < |word| ==> !u.space(word[k])) && text != [] && u.space(text[0])
    ensures (exists i: nat, j: nat :: FieldAt(u, word + text, w, i, j))
            <==> (word != [] && w == word) || exists i: nat, j: nat :: FieldAt(u, text[1..], w, i, j)
  {
    hide FieldAt, IsField;
    if word != [] && w == word {
      FirstField(u, word, text);
    }
    if i: nat, j: nat :| FieldAt(u, text[1..], w, i, j) {
      InText(u, text[1..], w, i, j);
      LaterField(u, word, text, w, i, j);
    }
    if i: nat, j: nat :| FieldAt(u, word + text, w, i, j) {
      FieldSplits(u, word, text, w, i, j);
    }
  }

  lemma FirstField(u: Tables, word: Text, text: Text)
    requires (forall k :: 0 <= k < |word| ==> !u.space(word[k])) && text != [] && u.space(text[0]) && word != []
    ensures FieldAt(u, word + text, word, 0, |word|)
  {
    hide IsField;
    FieldsOfOne(u, word, text, 0, |word|);
    assert (word + text)[0..|word|] == word;
  }

  lemma LaterField(u: Tables, word: Text, text: Text, w: Text, i: nat, j: nat)
    requires text != [] && u.space(text[0]) && j <= |text| - 1 && i <= j
    ensures FieldAt(u, text[1..], w, i, j) <==> FieldAt(u, word + text, w, i + |word| + 1, j + |word| + 1)
  {
    hide IsField;
    var head, rest := word + [text[0]], text[1..];
    assert word + text == head + rest;
    FieldShift(u, head, rest, i, j);
    assert (head + rest)[i + |head|..j + |head|] == rest[i..j];
  }

  lemma FieldSplits(u: Tables, word: Text, text: Text, w: Text, i: nat, j: nat)
    requires (forall k :: 0 <= k < |word| ==> !u.space(word[k])) && text != [] && u.space(text[0])
    requires FieldAt(u, word + text, w, i, j)
    ensures (word != [] && w == word) || exists i: nat, j: nat :: FieldAt(u, text[1..], w, i, j)
  {
    InText(u, word + text, w, i, j);
    hide IsField, FieldAt;
    FieldSides(u, word + text, |word|, i, j);
    if j <= |word| {
      FieldsOfOne(u, word, text, i, j);
      assert (word + text)[0..|word|] == word;
    } else {
      LaterField(u, word, text, w, i - |word| - 1, j - |word| - 1);
    }
  }

  lemma InText(u: Tables, text: Text, w: Text, i: nat, j: nat)
    requires FieldAt(u, text, w, i, j)
    ensures IsField(u, text, i, j) && i < j <= |text| && w == text[i..j]
  {
  }

  /** The words of a text are its maximal runs without white space. */
  lemma FieldsMean(u: Tables, text: Text, w: Text)
    ensures w in Fields(u, text) <==> exists i: nat, j: nat :: IsField(u, text, i, j) && text[i..j] == w
  {
    FieldsFromMean(u, [], text, w);
    assert [] + text == text;
    if i: nat, j: nat :| IsField(u, text, i, j) && text[i..j] == w {
      assert FieldAt(u, text, w, i, j);
    }
  }

  /** The kept runes of a word, lower-cased when folding. */
  function Normalized(u: Tables, word: Text, fold: bool): Text {
    if word == [] then []
    else
      var last := word[|word| - 1];
      Normalized(u, word[..|word| - 1], fold) + if u.kept(last) then [if fold then u.lower(last) else last] else []
  }

  /** Rune by rune: one that is not kept goes, another is lower-cased when folding and else stays. */
  lemma {:induction false} NormalizedMeans(u: Tables, a: Text, c: nat, b: Text, fold: bool)
    ensures Normalized(u, a + [c] + b, fold)
            == Normalized(u, a, fold) + (if !u.kept(c) then [] else if fold then [u.lower(c)] else [c])
               + Normalized(u, b, fold)
    decreases |b|
  {
    if b == [] {
      assert (a + [c] + b)[..|a|] == a && a + [c] + b == a + [c];
    } else {
      var front := b[..|b| - 1];
      NormalizedMeans(u, a, c, front, fold);
      assert (a + [c] + b)[..|a| + |b|] == a + [c] + front;
    }
  }

  // ----- keys of windows -----

  function PackWide(runes: Text): nat {
    if runes == [] then 0 else PackWide(runes[..|runes| - 1]) * 0x1_0000_0000 + runes[|runes| - 1]
  }

  function PackNarrow(runes: Text): nat {
    if runes == [] then 0 else PackNarrow(runes[..|runes| - 1]) * 256 + runes[|runes| - 1]
  }

  ghost predicate Ascii(runes: Text) {
    forall i :: 0 <= i < |runes| ==> runes[i] <= 127
  }

  /** Up to two runes packed in 32 bits each, three to eight ASCII ones in a byte each, all others hashed. */
  ghost function KeyOf(u: Tables, runes: Text): nat {
    if |runes| <= 2 then PackWide(runes)
    else if |runes| <= 8 && Ascii(runes) then PackNarrow(runes)
    else u.hash(runes)
  }

  /** The key, packed rune by rune, falling back to the hash at the first rune past ASCII. */
  method RuneNgramKey(u: Tables, runes: Text) returns (key: nat)
    ensures key == KeyOf(u, runes)
  {
    var n := |runes|;
    key := 0;
    if n <= 2 {
      for i := 0 to n
        invariant key == PackWide(runes[..i])
      {
        assert runes[..i + 1][..i] == runes[..i];
        key := key * 0x1_0000_0000 + runes[i];
      }
      assert runes[..n] == runes;
      return;
    }
    if n <= 8 {
      for i := 0 to n
        invariant key == PackNarrow(runes[..i])
        invariant forall j :: 0 <= j < i ==> runes[j] <= 127
      {
        if runes[i] > 127 {
          return u.hash(runes);
        }
        assert runes[..i + 1][..i] == runes[..i];
        key := key * 256 + runes[i];
      }
      assert runes[..n] == runes;
      return;
    }
    key := u.hash(runes);
  }

  lemma SplitEqual(a: nat, x: nat, b: nat, y: nat, base: nat)
    requires x < base && y < base && a * base + x == b * base + y
    ensures a == b && x == y
  {
    if a < b {
      Scaled(a + 1, b, base);
      Spread(a, base);
    } else if b < a {
      Scaled(b + 1, a, base);
      Spread(b, base);
    }
  }

  lemma Scaled(a: nat, b: nat, c: nat)
    requires a <= b
    ensures a * c <= b * c
  {
  }

  lemma Spread(a: nat, c: nat)
    ensures (a + 1) * c == a * c + c
  {
  }

  lemma {:induction false} NarrowInjective(a: Text, b: Text)
    requires |a| == |b| && Ascii(a) && Ascii(b) && PackNarrow(a) == PackNarrow(b)
    ensures a == b
    decreases |a|
  {
    if a != [] {
      var n := |a| - 1;
      SplitEqual(PackNarrow(a[..n]), a[n], PackNarrow(b[..n]), b[n], 256);
      NarrowInjective(a[..n], b[..n]);
      assert a == a[..n] + [a[n]] && b == b[..n] + [b[n]];
    }
  }

  lemma {:induction false} WideInjective(a: Text, b: Text)
    requires |a| == |b| && (forall i :: 0 <= i < |a| ==> a[i] < 0x1_0000_0000 && b[i] < 0x1_0000_0000)
             && PackWide(a) == PackWide(b)
    ensures a == b
    decreases |a|
  {
    if a != [] {
      var n := |a| - 1;
      SplitEqual(PackWide(a[..n]), a[n], PackWide(b[..n]), b[n], 0x1_0000_0000);
      WideInjective(a[..n], b[..n]);
      assert a == a[..n] + [a[n]] && b == b[..n] + [b[n]];
    }
  }

  /** Packed windows of one size never share a key. */
  lemma PackedKeysDiffer(u: Tables, a: Text, b: Text)
    requires |a| == |b| && KeyOf(u, a) == KeyOf(u, b)
    requires (|a| <= 2 && forall i :: 0 <= i < |a| ==> a[i] < 0x1_0000_0000 && b[i] < 0x1_0000_0000)
             || (|a| <= 8 && Ascii(a) && Ascii(b))
    ensures a == b
  {
    if |a| <= 2 {
      WideInjective(a, b);
    } else {
      NarrowInjective(a, b);
    }
  }

  lemma {:induction false} NarrowDigits(runes: Text, i: nat)
    requires Ascii(runes) && i < |runes|
    ensures PackNarrow(runes) / Bytes.Power(|runes| - 1 - i) % 256 == runes[i]
    decreases |runes|
  {
    var front, last := runes[..|runes| - 1], runes[|runes| - 1];
    if i < |front| {
      NarrowDigits(front, i);
      var p := Bytes.Power(|front| - 1 - i);
      Bytes.QuotientTwice(PackNarrow(runes), 256, p);
      assert (PackNarrow(front) * 256 + last) / 256 == PackNarrow(front);
    } else {
      assert Bytes.Power(0) == 1;
    }
  }

  lemma {:induction false} NarrowFits(runes: Text)
    requires Ascii(runes)
    ensures PackNarrow(runes) < Bytes.Power(|runes|)
    decreases |runes|
  {
    if runes != [] {
      NarrowFits(runes[..|runes| - 1]);
    }
  }

  lemma WideFew(a: nat, b: nat)
    ensures PackWide([a]) == a && PackWide([a, b]) == a * 0x1_0000_0000 + b
  {
    assert [a][..0] == [] && [a, b][..1] == [a];
    assert PackWide([]) == 0;
  }

  /** A key in numbers: one rune is itself, two are 32 bits each, three to eight ASCII runes a byte each
      with the first highest, and anything else is hashed. */
  lemma KeyMeans(u: Tables, runes: Text)
    ensures |runes| == 1 ==> KeyOf(u, runes) == runes[0]
    ensures |runes| == 2 ==> KeyOf(u, runes) == runes[0] * 0x1_0000_0000 + runes[1]
    ensures 3 <= |runes| <= 8 && (forall i :: 0 <= i < |runes| ==> runes[i] <= 127) ==>
              && KeyOf(u, runes) < Bytes.Power(|runes|)
              && forall i :: 0 <= i < |runes| ==> KeyOf(u, runes) / Bytes.Power(|runes| - 1 - i) % 256 == runes[i]
    ensures |runes| > 8 || (|runes| > 2 && exists i :: 0 <= i < |runes| && runes[i] > 127) ==>
              KeyOf(u, runes) == u.hash(runes)
  {
    if |runes| == 1 {
      WideFew(runes[0], 0);
      assert runes == [runes[0]];
    } else if |runes| == 2 {
      WideFew(runes[0], runes[1]);
      assert runes == [runes[0], runes[1]];
    } else if |runes| <= 8 && Ascii(runes) {
      NarrowFits(runes);
      forall i | 0 <= i < |runes| ensures PackNarrow(runes) / Bytes.Power(|runes| - 1 - i) % 256 == runes[i] {
        NarrowDigits(runes, i);
      }
    }
  }

  // ----- the keys of a text -----

  /** Adds a key unless it was seen. */
  function AddKey(keys: seq<nat>, key: nat): seq<nat> {
    if key in keys then keys else keys + [key]
  }

  /** After the first `n` windows of a normalized word. */
  ghost function WindowKeys(u: Tables, keys: seq<nat>, runes: Text, gram: nat, n: nat): seq<nat> {
    if n == 0 || n - 1 + gram > |runes| then keys
    else AddKey(WindowKeys(u, keys, runes, gram, n - 1), KeyOf(u, runes[n - 1..n - 1 + gram]))
  }

  ghost function WordKeys(u: Tables, keys: seq<nat>, runes: Text, gram: nat): seq<nat> {
    if |runes| < gram then keys else WindowKeys(u, keys, runes, gram, |runes| - gram + 1)
  }

  ghost function AllKeys(u: Tables, words: seq<Text>, gram: nat, fold: bool): seq<nat> {
    if words == [] then []
    else WordKeys(u, AllKeys(u, words[..|words| - 1], gram, fold), Normalized(u, words[|words| - 1], fold), gram)
  }

  /** The keys of a text, in first-seen order. */
  ghost function KeysOf(u: Tables, text: Text, gram: int, fold: bool): seq<nat> {
    if gram <= 0 then [] else AllKeys(u, Fields(u, text), gram, fold)
  }

  ghost predicate Once(keys: seq<nat>) {
    forall i, j :: 0 <= i < j < |keys| ==> keys[i] != keys[j]
  }

  lemma {:induction false} WindowKeysOnce(u: Tables, keys: seq<nat>, runes: Text, gram: nat, n: nat)
    requires Once(keys)
    ensures Once(WindowKeys(u, keys, runes, gram, n))
    decreases n
  {
    hide KeyOf;
    if n > 0 {
      WindowKeysOnce(u, keys, runes, gram, n - 1);
    }
  }

  lemma {:induction false} AllKeysOnce(u: Tables, words: seq<Text>, gram: nat, fold: bool)
    ensures Once(AllKeys(u, words, gram, fold))
    decreases |words|
  {
    hide Normalized, WindowKeys;
    if words != [] {
      var front, last := words[..|words| - 1], Normalized(u, words[|words| - 1], fold);
      AllKeysOnce(u, front, gram, fold);
      if |last| >= gram {
        WindowKeysOnce(u, AllKeys(u, front, gram, fold), last, gram, |last| - gram + 1);
      }
    }
  }

  /** A text's keys are listed once each. */
  lemma KeysOnce(u: Tables, text: Text, gram: int, fold: bool)
    ensures forall i, j :: 0 <= i < j < |KeysOf(u, text, gram, fold)| ==>
              KeysOf(u, text, gram, fold)[i] != KeysOf(u, text, gram, fold)[j]
  {
    hide AllKeys, FieldsFrom;
    if gram > 0 {
      AllKeysOnce(u, Fields(u, text), gram, fold);
    }
  }

  class NgramKeyer {
    var seen: set<nat>
    var runes: Text
    var keys: seq<nat>

    constructor ()
    {
      seen, runes, keys := {}, [], [];
    }

    /** The text's keys; nothing an earlier call left behind matters. */
    method Keys(u: Tables, query: Text, gramSize: int, fold: bool) returns (out: seq<nat>)
      modifies this
      ensures out == keys == KeysOf(u, query, gramSize, fold)
    {
      hide Normalized, KeyOf, WindowKeys;
      keys := [];
      if gramSize <= 0 {
        return keys;
      }
      seen := {};
      var words := Fields(u, query);
      for w := 0 to |words|
        invariant keys == AllKeys(u, words[..w], gramSize, fold)
        invariant forall k :: k in seen <==> k in keys
      {
        assert words[..w + 1][..w] == words[..w];
        NormalizeInto(u, words[w], fold);
        if |runes| < gramSize {
          continue;
        }
        AddWindows(u, gramSize);
      }
      assert words[..|words|] == words;
      out := keys;
    }

    /** Refills the rune buffer with the word's kept runes. */
    method NormalizeInto(u: Tables, word: Text, fold: bool)
      modifies this`runes
      ensures runes == Normalized(u, word, fold)
    {
      runes := [];
      for i := 0 to |word|
        invariant runes == Normalized(u, word[..i], fold)
      {
        assert word[..i + 1][..i] == word[..i];
        if u.kept(word[i]) {
          runes := runes + [if fold then u.lower(word[i]) else word[i]];
        }
      }
      assert word[..|word|] == word;
    }

    /** Adds the key of each window of the rune buffer that was not seen. */
    method AddWindows(u: Tables, gram: nat)
      requires 0 < gram <= |runes| && forall k :: k in seen <==> k in keys
      modifies this`seen, this`keys
      ensures keys == WordKeys(u, old(keys), runes, gram)
      ensures forall k :: k in seen <==> k in keys
    {
      hide KeyOf;
      for i := 0 to |runes| - gram + 1
        invariant keys == WindowKeys(u, old(keys), runes, gram, i)
        invariant forall k :: k in seen <==> k in keys
      {
        var key := RuneNgramKey(u, runes[i..i + gram]);
        if key !in seen {
          seen := seen + {key};
          keys := keys + [key];
        }
      }
    }
  }

  // ----- which keys a text has -----

  ghost predicate WindowIs(u: Tables, runes: Text, gram: nat, i: nat, key: nat) {
    i + gram <= |runes| && KeyOf(u, runes[i..i + gram]) == key
  }

  ghost predicate HasWindow(u: Tables, runes: Text, gram: nat, n: nat, key: nat) {
    exists i: nat :: i < n && WindowIs(u, runes, gram, i, key)
  }

  lemma {:induction false} WindowKeysHas(u: Tables, keys: seq<nat>, runes: Text, gram: nat, n: nat, key: nat)
    requires n > 0 ==> n - 1 + gram <= |runes|
    ensures key in WindowKeys(u, keys, runes, gram, n) <==> key in keys || HasWindow(u, runes, gram, n, key)
    decreases n
  {
    hide KeyOf;
    if n > 0 {
      WindowKeysHas(u, keys, runes, gram, n - 1, key);
      WindowNext(u, runes, gram, n, key);
    }
  }

  lemma WindowNext(u: Tables, runes: Text, gram: nat, n: nat, key: nat)
    requires n > 0 && n - 1 + gram <= |runes|
    ensures HasWindow(u, runes, gram, n, key)
            <==> HasWindow(u, runes, gram, n - 1, key) || KeyOf(u, runes[n - 1..n - 1 + gram]) == key
  {
    hide KeyOf;
    assert WindowIs(u, runes, gram, n - 1, key) <==> KeyOf(u, runes[n - 1..n - 1 + gram]) == key;
    hide WindowIs;
    if HasWindow(u, runes, gram, n, key) {
      var i: nat :| i < n && WindowIs(u, runes, gram, i, key);
      assert i < n - 1 ==> HasWindow(u, runes, gram, n - 1, key);
    }
  }

  /** Some word of the list has a window with this key. */
  ghost predicate SomeWord(u: Tables, words: seq<Text>, gram: nat, fold: bool, key: nat) {
    exists w :: 0 <= w < |words| && WordHas(u, words[w], gram, fold, key)
  }

  ghost predicate WordHas(u: Tables, word: Text, gram: nat, fold: bool, key: nat) {
    HasWindow(u, Normalized(u, word, fold), gram, |Normalized(u, word, fold)| + 1, key)
  }

  lemma WordKeysHas(u: Tables, keys: seq<nat>, runes: Text, gram: nat, key: nat)
    ensures key in WordKeys(u, keys, runes, gram) <==> key in keys || HasWindow(u, runes, gram, |runes| + 1, key)
  {
    hide KeyOf, WindowKeys;
    if |runes| >= gram {
      WindowKeysHas(u, keys, runes, gram, |runes| - gram + 1, key);
    }
    assert forall i: nat :: WindowIs(u, runes, gram, i, key) ==> i + gram <= |runes|;
  }

  /** The keys of a text are exactly the keys of the windows of its words. */
  lemma {:induction false} AllKeysHas(u: Tables, words: seq<Text>, gram: nat, fold: bool, key: nat)
    ensures key in AllKeys(u, words, gram, fold) <==> SomeWord(u, words, gram, fold, key)
    decreases |words|
  {
    hide WordHas, WordKeys, Normalized, HasWindow;
    if words != [] {
      var front, last := words[..|words| - 1], words[|words| - 1];
      AllKeysHas(u, front, gram, fold, key);
      WordKeysHas(u, AllKeys(u, front, gram, fold), Normalized(u, last, fold), gram, key);
      assert WordHas(u, last, gram, fold, key) <==> HasWindow(u, Normalized(u, last, fold), gram,
                                                              |Normalized(u, last, fold)| + 1, key) by {
        WordHasMeans(u, last, gram, fold, key);
      }
      if w :| 0 <= w < |words| && WordHas(u, words[w], gram, fold, key) {
        assert w < |front| ==> WordHas(u, front[w], gram, fold, key);
      }
      if w :| 0 <= w < |front| && WordHas(u, front[w], gram, fold, key) {
        assert words[w] == front[w];
      }
    }
  }

  lemma WordHasMeans(u: Tables, word: Text, gram: nat, fold: bool, key: nat)
    ensures WordHas(u, word, gram, fold, key) <==> HasWindow(u, Normalized(u, word, fold), gram,
                                                             |Normalized(u, word, fold)| + 1, key)
  {
  }

  /** `q` stands in `d` as a contiguous run. */
  ghost predicate RunAt(q: Text, d: Text, i: nat) {
    i + |q| <= |d| && d[i..i + |q|] == q
  }

  ghost predicate RunIn(q: Text, d: Text) {
    exists i: nat :: RunAt(q, d, i)
  }

  /** Every window of a run is a window of what it stands in. */
  lemma RunWindows(u: Tables, q: Text, d: Text, gram: nat, key: nat)
    requires RunIn(q, d) && HasWindow(u, q, gram, |q| + 1, key)
    ensures HasWindow(u, d, gram, |d| + 1, key)
  {
    hide KeyOf;
    var i: nat :| RunAt(q, d, i);
    var j: nat :| j < |q| + 1 && WindowIs(u, q, gram, j, key);
    assert i + |q| <= |d| && j + gram <= |q|;
    var a, b := d[i + j..i + j + gram], q[j..j + gram];
    forall k | 0 <= k < gram ensures a[k] == b[k] {
      assert q[j + k] == d[i..i + |q|][j + k];
    }
    assert a == b;
    assert WindowIs(u, d, gram, i + j, key);
  }

  /** No false negatives: when each query word that is long enough stands, normalized, as a run in
      some normalized word of the document, the document has every key of the query. */
  lemma QueryKeysPresent(u: Tables, query: Text, doc: Text, gram: nat, fold: bool, key: nat)
    requires gram > 0 && key in KeysOf(u, query, gram, fold)
    requires forall w :: w in Fields(u, query) && |Normalized(u, w, fold)| >= gram ==>
               exists d :: d in Fields(u, doc) && RunIn(Normalized(u, w, fold), Normalized(u, d, fold))
    ensures key in KeysOf(u, doc, gram, fold)
  {
    hide AllKeys, Normalized, HasWindow, RunIn, FieldsFrom;
    AllKeysHas(u, Fields(u, query), gram, fold, key);
    AllKeysHas(u, Fields(u, doc), gram, fold, key);
    var words := Fields(u, query);
    var i :| 0 <= i < |words| && WordHas(u, words[i], gram, fold, key);
    var q := Normalized(u, words[i], fold);
    LongEnough(u, q, gram, key);
    assert words[i] in words;
    var d :| d in Fields(u, doc) && RunIn(q, Normalized(u, d, fold));
    RunWindows(u, q, Normalized(u, d, fold), gram, key);
    var j :| 0 <= j < |Fields(u, doc)| && Fields(u, doc)[j] == d;
    assert WordHas(u, Fields(u, doc)[j], gram, fold, key);
  }

  lemma LongEnough(u: Tables, runes: Text, gram: nat, key: nat)
    requires HasWindow(u, runes, gram, |runes| + 1, key)
    ensures |runes| >= gram
  {
  }
}
