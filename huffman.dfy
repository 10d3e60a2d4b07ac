/**
 * The character Huffman coder of `huffman_encoding.cpp`: count the
 * characters, build the tree with a min-heap, read each leaf's code off its
 * root-to-leaf path (0 = left, 1 = right), encode a text and decode it one
 * symbol at a time; plus the MSB-first `BitReader` and `HuffmanResult` of
 * `huffman_encoding.h`.
 */
module Huffman {
  import opened Wrappers
  import Arith

  /*
   * ---------------------------------------------------------------------
   * The tree
   * ---------------------------------------------------------------------
   */

  /**
   * `struct Node`. A leaf has neither child and carries its character; an
   * inner node has both children and the `'~'` placeholder character, which
   * nothing reads, so it is not kept.
   */
  datatype Tree =
    | Leaf(ch: char, freq: int)
    | Node(freq: int, left: Tree, right: Tree)

  /** The characters at the leaves. */
  function Chars(t: Tree): set<char>
  {
    match t
    case Leaf(c, _) => {c}
    case Node(_, l, r) => Chars(l) + Chars(r)
  }

  /** No character is at two leaves. */
  predicate Distinct(t: Tree)
  {
    match t
    case Leaf(_, _) => true
    case Node(_, l, r) => Chars(l) !! Chars(r) && Distinct(l) && Distinct(r)
  }

  /** Every inner node's frequency is the sum of its children's. */
  predicate SumsHold(t: Tree)
  {
    match t
    case Leaf(_, _) => true
    case Node(f, l, r) => f == l.freq + r.freq && SumsHold(l) && SumsHold(r)
  }

  /** Every leaf carries the frequency `freq` gives its character. */
  predicate LeavesMatch(t: Tree, freq: map<char, int>)
  {
    match t
    case Leaf(c, f) => c in freq && f == freq[c]
    case Node(_, l, r) => LeavesMatch(l, freq) && LeavesMatch(r, freq)
  }

  /** A tree `build_huffman_tree` can produce from `freq`, or a part of one. */
  predicate TreeOk(t: Tree, freq: map<char, int>)
  {
    SumsHold(t) && Distinct(t) && LeavesMatch(t, freq)
  }

  function LeafCount(t: Tree): nat
  {
    match t
    case Leaf(_, _) => 1
    case Node(_, l, r) => LeafCount(l) + LeafCount(r)
  }

  function InnerCount(t: Tree): nat
  {
    match t
    case Leaf(_, _) => 0
    case Node(_, l, r) => 1 + InnerCount(l) + InnerCount(r)
  }

  /** One leaf per distinct character, and one inner node fewer than leaves. */
  lemma {:induction false} TreeShape(t: Tree)
    requires Distinct(t)
    ensures LeafCount(t) == |Chars(t)|
    ensures InnerCount(t) == LeafCount(t) - 1
  {
    match t
    case Leaf(_, _) =>
    case Node(_, l, r) =>
      TreeShape(l);
      TreeShape(r);
      assert |Chars(l) + Chars(r)| == |Chars(l)| + |Chars(r)|;
  }

  /*
   * ---------------------------------------------------------------------
   * Frequencies
   * ---------------------------------------------------------------------
   */

  /** `freq_map[c]` read through `operator[]`: 0 for a character not yet counted. */
  function Get(freq: map<char, int>, c: char): int
  {
    if c in freq then freq[c] else 0
  }

  /** The number of times each character of `text` occurs in it. */
  function Counts(text: string): map<char, int>
  {
    map c | c in multiset(text) :: multiset(text)[c]
  }

  /**
   * `count_frequency`: add each character's occurrences to the map it is
   * given, a character not yet in the map starting from 0.
   */
  method CountFrequency(text: string, freqIn: map<char, int>) returns (freq: map<char, int>)
    ensures forall c :: c in freq <==> c in freqIn || c in text
    ensures forall c :: Get(freq, c) == Get(freqIn, c) + multiset(text)[c]
  {
    freq := freqIn;
    for i := 0 to |text|
      invariant forall c :: c in freq <==> c in freqIn || c in text[..i]
      invariant forall c :: Get(freq, c) == Get(freqIn, c) + multiset(text[..i])[c]
    {
      var c := text[i];
      assert text[..i + 1] == text[..i] + [c];
      assert multiset(text[..i + 1]) == multiset(text[..i]) + multiset{c};
      freq := freq[c := Get(freq, c) + 1];
    }
    assert text[..|text|] == text;
  }

  /** Counting into an empty map gives exactly the occurrence counts. */
  lemma CountFrequencyFromEmpty(text: string, freq: map<char, int>)
    requires forall c :: c in freq <==> c in text
    requires forall c :: Get(freq, c) == multiset(text)[c]
    ensures freq == Counts(text)
  {
  }

  /** The sum of the values of a map. */
  ghost function MapSum(m: map<char, int>): int
    decreases m.Keys
  {
    if m == map[] then 0
    else
      var c :| c in m;
      m[c] + MapSum(m - {c})
  }

  /** The sum does not depend on which key is taken out first. */
  lemma {:induction false} MapSumRemove(m: map<char, int>, c: char)
    requires c in m
    ensures MapSum(m) == m[c] + MapSum(m - {c})
    decreases m.Keys
  {
    var d :| d in m && MapSum(m) == m[d] + MapSum(m - {d});
    if d != c {
      MapSumRemove(m - {d}, c);
      MapSumRemove(m - {c}, d);
      assert m - {d} - {c} == m - {c} - {d};
    }
  }

  /** Each character of `text`, weighed by `w`, summed over the positions of `text`. */
  function PositionSum(text: string, w: char -> int): int
  {
    if text == [] then 0 else PositionSum(text[..|text| - 1], w) + w(text[|text| - 1])
  }

  /** Each character's count in `text` times its weight `w`. */
  function Weighed(text: string, w: char -> int): map<char, int>
  {
    map c | c in multiset(text) :: multiset(text)[c] * w(c)
  }

  /** Summing weights per character (count times weight) and per position agree. */
  lemma {:induction false} WeighedSum(text: string, w: char -> int)
    ensures MapSum(Weighed(text, w)) == PositionSum(text, w)
  {
    if text == [] {
      assert Weighed(text, w) == map[];
    } else {
      var init := text[..|text| - 1];
      var x := text[|text| - 1];
      assert text == init + [x];
      WeighedSum(init, w);
      var before := Weighed(init, w);
      var after := Weighed(text, w);
      WeighedSnoc(init, x, w);
      MapSumRemove(after, x);
      if x in before {
        MapSumRemove(before, x);
      } else {
        assert before - {x} == before;
      }
    }
  }

  /** Appending `x` to the text adds `w(x)` to the entry of `x` and leaves the others alone. */
  lemma WeighedSnoc(init: string, x: char, w: char -> int)
    ensures var before := Weighed(init, w);
      var after := Weighed(init + [x], w);
      && x in after
      && after - {x} == before - {x}
      && after[x] == (if x in before then before[x] else 0) + w(x)
  {
    var text := init + [x];
    assert multiset(text) == multiset(init) + multiset{x};
    var before := Weighed(init, w);
    var after := Weighed(text, w);
    assert after - {x} == before - {x} by {
      forall c | c in after - {x}
        ensures c in before - {x} && (after - {x})[c] == (before - {x})[c]
      {
        assert multiset(text)[c] == multiset(init)[c];
      }
    }
    var n := multiset(init)[x];
    var v := w(x);
    assert after[x] == (n + 1) * v;
    Arith.MulSucc(n, v);
  }

  /** The character counts sum to the length of the text. */
  lemma CountsSum(text: string)
    ensures MapSum(Counts(text)) == |text|
  {
    var one := (c: char) => 1;
    assert Counts(text) == Weighed(text, one);
    WeighedSum(text, one);
    OnesSum(text, one);
  }

  lemma {:induction false} OnesSum(text: string, one: char -> int)
    requires forall c :: one(c) == 1
    ensures PositionSum(text, one) == |text|
  {
    if text != [] {
      OnesSum(text[..|text| - 1], one);
    }
  }

  /*
   * ---------------------------------------------------------------------
   * The min-heap
   * ---------------------------------------------------------------------
   */

  /** `MinHeap::compare`: `a` comes out of the queue after `b` when its frequency is higher. */
  predicate Compare(a: Tree, b: Tree)
  {
    a.freq > b.freq
  }

  /** The position of the first tree of least frequency. */
  function MinIndex(s: seq<Tree>): (k: nat)
    requires s != []
    ensures k < |s|
    ensures forall j :: 0 <= j < |s| ==> !Compare(s[k], s[j])
  {
    if |s| == 1 then 0
    else
      var k := MinIndex(s[..|s| - 1]);
      if Compare(s[k], s[|s| - 1]) then |s| - 1 else k
  }

  /** `s` without its element at `k`. */
  function Remove(s: seq<Tree>, k: nat): seq<Tree>
    requires k < |s|
  {
    s[..k] + s[k + 1..]
  }

  /** `struct MinHeap`: the priority queue of `build_huffman_tree`. */
  class MinHeap {
    var pq: seq<Tree>

    constructor()
      ensures pq == []
    {
      pq := [];
    }

    /** `pq.push(node)`. */
    method Push(t: Tree)
      modifies this
      ensures pq == old(pq) + [t]
    {
      pq := pq + [t];
    }

    /** `pq.top()`: a node no other node in the queue precedes. */
    function Top(): (t: Tree)
      reads this
      requires pq != []
      ensures t in pq && forall x :: x in pq ==> !Compare(t, x)
    {
      pq[MinIndex(pq)]
    }

    /** `pq.pop()`: take out the node `Top` gives. */
    method Pop()
      modifies this
      requires pq != []
      ensures pq == Remove(old(pq), MinIndex(old(pq)))
    {
      pq := Remove(pq, MinIndex(pq));
    }
  }

  /*
   * ---------------------------------------------------------------------
   * Building the tree
   * ---------------------------------------------------------------------
   */

  /** The total frequency of a forest. */
  function ForestSum(s: seq<Tree>): int
  {
    if s == [] then 0 else ForestSum(s[..|s| - 1]) + s[|s| - 1].freq
  }

  /** The characters at the leaves of a forest. */
  function ForestChars(s: seq<Tree>): set<char>
  {
    if s == [] then {} else ForestChars(s[..|s| - 1]) + Chars(s[|s| - 1])
  }

  /** No character is in two trees of the forest. */
  predicate ForestDisjoint(s: seq<Tree>)
  {
    s == [] || (ForestDisjoint(s[..|s| - 1]) && ForestChars(s[..|s| - 1]) !! Chars(s[|s| - 1]))
  }

  /** Adding a tree to a forest. */
  lemma ForestPush(s: seq<Tree>, t: Tree)
    ensures (s + [t])[..|s|] == s && (s + [t])[|s|] == t
    ensures ForestSum(s + [t]) == ForestSum(s) + t.freq
    ensures ForestChars(s + [t]) == ForestChars(s) + Chars(t)
    ensures ForestDisjoint(s + [t]) == (ForestDisjoint(s) && ForestChars(s) !! Chars(t))
  {
    assert (s + [t])[..|s|] == s;
  }

  /** Taking a tree out of a forest. */
  lemma {:induction false} ForestRemove(s: seq<Tree>, k: nat)
    requires k < |s|
    ensures var r := Remove(s, k);
      && ForestSum(s) == s[k].freq + ForestSum(r)
      && ForestChars(s) == Chars(s[k]) + ForestChars(r)
      && (ForestDisjoint(s) ==> ForestDisjoint(r) && Chars(s[k]) !! ForestChars(r))
      && (forall x :: x in r ==> x in s)
  {
    var init := s[..|s| - 1];
    var last := s[|s| - 1];
    if k == |s| - 1 {
      assert Remove(s, k) == init;
    } else {
      ForestRemove(init, k);
      assert init[k] == s[k];
      assert Remove(s, k) == Remove(init, k) + [last];
      ForestPush(Remove(init, k), last);
    }
  }

  /** The part of `freq` whose keys are in `keys`. */
  function Restrict(freq: map<char, int>, keys: set<char>): map<char, int>
  {
    map c | c in freq && c in keys :: freq[c]
  }

  /** Every tree of the forest is a well-formed part of the tree for `freq`, and no two share a character. */
  predicate ForestOk(s: seq<Tree>, freq: map<char, int>)
  {
    (forall x :: x in s ==> TreeOk(x, freq)) && ForestDisjoint(s)
  }

  /** Joining the two trees the queue gives first keeps the forest well-formed, its characters and its total. */
  lemma JoinTwo(s: seq<Tree>, freq: map<char, int>)
    requires |s| > 1 && ForestOk(s, freq)
    ensures var s1 := Remove(s, MinIndex(s));
      var s2 := Remove(s1, MinIndex(s1));
      var left := s[MinIndex(s)];
      var right := s1[MinIndex(s1)];
      var joined := s2 + [Node(left.freq + right.freq, left, right)];
      && ForestOk(joined, freq)
      && ForestChars(joined) == ForestChars(s)
      && ForestSum(joined) == ForestSum(s)
      && |joined| == |s| - 1
  {
    var s1 := Remove(s, MinIndex(s));
    var s2 := Remove(s1, MinIndex(s1));
    var left := s[MinIndex(s)];
    var right := s1[MinIndex(s1)];
    var node := Node(left.freq + right.freq, left, right);
    ForestRemove(s, MinIndex(s));
    ForestRemove(s1, MinIndex(s1));
    assert left in s && right in s1 && right in s;
    assert Chars(left) !! Chars(right);
    assert TreeOk(node, freq);
    ForestPush(s2, node);
  }

  /** The first loop of `build_huffman_tree`: a leaf per entry of `freq`, in the map's own order. */
  method PushLeaves(heap: MinHeap, freq: map<char, int>)
    modifies heap
    requires heap.pq == []
    ensures ForestOk(heap.pq, freq)
    ensures ForestChars(heap.pq) == freq.Keys
    ensures ForestSum(heap.pq) == MapSum(freq)
  {
    var keys := freq.Keys;
    assert Restrict(freq, keys) == freq;
    while keys != {}
      invariant keys <= freq.Keys
      invariant ForestOk(heap.pq, freq)
      invariant ForestChars(heap.pq) == freq.Keys - keys
      invariant ForestSum(heap.pq) + MapSum(Restrict(freq, keys)) == MapSum(freq)
      decreases keys
    {
      var c :| c in keys;
      ForestPush(heap.pq, Leaf(c, freq[c]));
      MapSumRemove(Restrict(freq, keys), c);
      assert Restrict(freq, keys) - {c} == Restrict(freq, keys - {c});
      heap.Push(Leaf(c, freq[c]));
      keys := keys - {c};
    }
    assert Restrict(freq, keys) == map[];
  }

  /** The second loop of `build_huffman_tree`: join the two least frequent trees until one is left. */
  method JoinAll(heap: MinHeap, freq: map<char, int>)
    modifies heap
    requires heap.pq != [] && ForestOk(heap.pq, freq)
    ensures |heap.pq| == 1 && ForestOk(heap.pq, freq)
    ensures ForestChars(heap.pq) == old(ForestChars(heap.pq))
    ensures ForestSum(heap.pq) == old(ForestSum(heap.pq))
  {
    while |heap.pq| > 1
      invariant heap.pq != [] && ForestOk(heap.pq, freq)
      invariant ForestChars(heap.pq) == old(ForestChars(heap.pq))
      invariant ForestSum(heap.pq) == old(ForestSum(heap.pq))
      decreases |heap.pq|
    {
      JoinTwo(heap.pq, freq);
      var left := heap.Top();
      heap.Pop();
      var right := heap.Top();
      heap.Pop();
      heap.Push(Node(left.freq + right.freq, left, right));
    }
  }

  /**
   * `build_huffman_tree`: push a leaf per entry of the map, then join the
   * two least frequent trees until one is left. `pq.top()` on an empty queue
   * is undefined, hence the non-empty map.
   */
  method BuildTree(freq: map<char, int>) returns (root: Tree)
    requires freq != map[]
    ensures TreeOk(root, freq) && Chars(root) == freq.Keys
    ensures root.freq == MapSum(freq)
  {
    var heap := new MinHeap();
    PushLeaves(heap, freq);
    assert heap.pq != [] by {
      var c :| c in freq;
      assert c in ForestChars(heap.pq);
    }
    JoinAll(heap, freq);
    root := heap.Top();
    assert heap.pq == [root];
    ForestPush([], root);
  }

  /*
   * ---------------------------------------------------------------------
   * Codes
   * ---------------------------------------------------------------------
   */

  /**
   * `get_huffman_codes`: walk the tree from `code`, left subtree first, and
   * store each leaf's code in `codes`; a leaf's entry is overwritten if its
   * character was already there.
   */
  function CodesInto(t: Tree, code: string, codes: map<char, string>): (r: map<char, string>)
    ensures r.Keys == codes.Keys + Chars(t)
    ensures forall c :: c in codes && c !in Chars(t) ==> r[c] == codes[c]
  {
    match t
    case Leaf(c, _) => codes[c := code]
    case Node(_, left, right) => CodesInto(right, code + "1", CodesInto(left, code + "0", codes))
  }

  /** The code table `main` builds: `get_huffman_codes(root, "", huffmanCode)` on an empty map. */
  function Codes(t: Tree): map<char, string>
  {
    CodesInto(t, "", map[])
  }

  /** The root-to-leaf path of `c`: `'0'` for each step left, `'1'` for each step right. */
  function Path(t: Tree, c: char): string
    requires c in Chars(t)
  {
    match t
    case Leaf(_, _) => ""
    case Node(_, left, right) =>
      if c in Chars(left) then "0" + Path(left, c) else "1" + Path(right, c)
  }

  /** In a tree without repeated characters, a character's code is `code` followed by its path. */
  lemma {:induction false} CodeIsPath(t: Tree, code: string, codes: map<char, string>, c: char)
    requires Distinct(t) && c in Chars(t)
    ensures CodesInto(t, code, codes)[c] == code + Path(t, c)
  {
    match t
    case Leaf(_, _) =>
    case Node(_, left, right) =>
      var inner := CodesInto(left, code + "0", codes);
      if c in Chars(left) {
        CodeIsPath(left, code + "0", codes, c);
        assert c !in Chars(right);
        Arith.ConcatAssoc(code, "0", Path(left, c));
      } else {
        CodeIsPath(right, code + "1", inner, c);
        Arith.ConcatAssoc(code, "1", Path(right, c));
      }
  }

  /** `main`'s table maps each character of a tree without repeats to its path. */
  lemma CodesArePaths(t: Tree)
    requires Distinct(t)
    ensures Codes(t).Keys == Chars(t)
    ensures forall c :: c in Chars(t) ==> Codes(t)[c] == Path(t, c)
  {
    forall c | c in Chars(t)
      ensures Codes(t)[c] == Path(t, c)
    {
      CodeIsPath(t, "", map[], c);
      assert "" + Path(t, c) == Path(t, c);
    }
  }

  /** Below an inner node every path has at least one bit. */
  lemma PathNonEmpty(t: Tree, c: char)
    requires t.Node? && c in Chars(t)
    ensures |Path(t, c)| >= 1
  {
  }

  /** No two characters' paths are one a prefix of the other. */
  lemma {:induction false} PathsPrefixFree(t: Tree, a: char, b: char)
    requires Distinct(t) && a in Chars(t) && b in Chars(t) && a != b
    ensures !(Path(t, a) <= Path(t, b))
  {
    match t
    case Leaf(_, _) =>
    case Node(_, left, right) =>
      if a in Chars(left) && b in Chars(left) {
        PathsPrefixFree(left, a, b);
        ConsPrefix('0', Path(left, a), Path(left, b));
      } else if a in Chars(right) && b in Chars(right) {
        assert a !in Chars(left) && b !in Chars(left);
        PathsPrefixFree(right, a, b);
        ConsPrefix('1', Path(right, a), Path(right, b));
      } else {
        assert Path(t, a)[0] != Path(t, b)[0];
      }
  }

  lemma ConsPrefix(x: char, p: string, q: string)
    ensures ([x] + p <= [x] + q) == (p <= q)
  {
    if [x] + p <= [x] + q {
      assert ([x] + p)[1..] == p;
      assert ([x] + q)[1..|p| + 1] == q[..|p|];
    }
  }

  /** The code table of a tree without repeated characters is prefix-free. */
  lemma CodesPrefixFree(t: Tree)
    requires Distinct(t)
    ensures Codes(t).Keys == Chars(t)
    ensures forall a, b :: a in Codes(t) && b in Codes(t) && a != b ==> !(Codes(t)[a] <= Codes(t)[b])
  {
    CodesArePaths(t);
    forall a, b | a in Codes(t) && b in Codes(t) && a != b
      ensures !(Codes(t)[a] <= Codes(t)[b])
    {
      PathsPrefixFree(t, a, b);
    }
  }

  /*
   * ---------------------------------------------------------------------
   * Encoding
   * ---------------------------------------------------------------------
   */

  /** `huffmanCode[c]` read through `operator[]`: the empty code for a character not in the table. */
  function Lookup(codes: map<char, string>, c: char): string
  {
    if c in codes then codes[c] else ""
  }

  /** The codes of the characters of `text`, one after the other. */
  function Encoded(text: string, codes: map<char, string>): string
  {
    if text == [] then "" else Encoded(text[..|text| - 1], codes) + Lookup(codes, text[|text| - 1])
  }

  /**
   * `get_encoded_text`: append each character's code. `operator[]` adds an
   * empty code for a character the table does not hold, so the table comes
   * back with one.
   */
  method EncodeText(text: string, codes: map<char, string>) returns (encoded: string, codesOut: map<char, string>)
    ensures encoded == Encoded(text, codes)
    ensures forall c :: c in codesOut <==> c in codes || c in text
    ensures forall c :: c in codesOut ==> codesOut[c] == Lookup(codes, c)
  {
    encoded := "";
    codesOut := codes;
    for i := 0 to |text|
      invariant encoded == Encoded(text[..i], codes)
      invariant forall c :: c in codesOut <==> c in codes || c in text[..i]
      invariant forall c :: c in codesOut ==> codesOut[c] == Lookup(codes, c)
    {
      var c := text[i];
      assert text[..i + 1][..i] == text[..i];
      if c !in codesOut {
        codesOut := codesOut[c := ""];
      }
      encoded := encoded + codesOut[c];
    }
    assert text[..|text|] == text;
  }

  /** Encoding a concatenation concatenates the encodings. */
  lemma {:induction false} EncodedAppend(a: string, b: string, codes: map<char, string>)
    ensures Encoded(a + b, codes) == Encoded(a, codes) + Encoded(b, codes)
    decreases |b|
  {
    if b == [] {
      assert a + b == a;
    } else {
      var init := b[..|b| - 1];
      var last := b[|b| - 1];
      assert (a + b)[..|a + b| - 1] == a + init;
      EncodedAppend(a, init, codes);
    }
  }

  /** Encoding is weighing each position by its code length. */
  lemma {:induction false} EncodedPositionSum(text: string, codes: map<char, string>, len: char -> int)
    requires forall c :: len(c) == |Lookup(codes, c)|
    ensures |Encoded(text, codes)| == PositionSum(text, len)
  {
    if text != [] {
      EncodedPositionSum(text[..|text| - 1], codes, len);
    }
  }

  /** The encoded length is the sum over characters of count times code length. */
  lemma EncodedLength(text: string, codes: map<char, string>)
    ensures |Encoded(text, codes)| == MapSum(Weighed(text, c => |Lookup(codes, c)|))
  {
    var len := c => |Lookup(codes, c)|;
    EncodedPositionSum(text, codes, len);
    WeighedSum(text, len);
  }

  /*
   * ---------------------------------------------------------------------
   * Decoding
   * ---------------------------------------------------------------------
   */

  /**
   * `get_decode_text`: from `index`, the position of the last bit already
   * read, walk down the tree one bit per inner node (`'0'` left, anything
   * else right) and return the position of the last bit read and the
   * leaf's character. `str[str.size()]` is `'\0'`, which goes right; a read
   * beyond it is undefined and gives `None`.
   */
  function DecodeSymbol(t: Tree, bits: string, index: int): (r: Option<(int, char)>)
    requires -1 <= index <= |bits|
    ensures r.Some? ==> index <= r.value.0 <= |bits| && r.value.1 in Chars(t)
    ensures r.Some? && t.Node? ==> index < r.value.0
  {
    match t
    case Leaf(c, _) => Some((index, c))
    case Node(_, left, right) =>
      var i := index + 1;
      if i > |bits| then None
      else if i < |bits| && bits[i] == '0' then DecodeSymbol(left, bits, i)
      else DecodeSymbol(right, bits, i)
  }

  /** One call reads exactly the path of the character whose code comes next. */
  lemma {:induction false} DecodePath(t: Tree, c: char, bits: string, index: int)
    requires c in Chars(t)
    requires -1 <= index && index + |Path(t, c)| < |bits|
    requires bits[index + 1..index + 1 + |Path(t, c)|] == Path(t, c)
    ensures DecodeSymbol(t, bits, index) == Some((index + |Path(t, c)|, c))
  {
    match t
    case Leaf(_, _) =>
    case Node(_, left, right) =>
      var p := Path(t, c);
      assert bits[index + 1] == p[0];
      assert bits[index + 2..index + 1 + |p|] == p[1..];
      if c in Chars(left) {
        DecodePath(left, c, bits, index + 1);
      } else {
        DecodePath(right, c, bits, index + 1);
      }
  }

  /**
   * Decode symbol after symbol until every bit has been read, starting after
   * position `index`. A single leaf reads no bits, so it only decodes an
   * empty bit string.
   */
  function DecodeFrom(t: Tree, bits: string, index: int, decoded: string): Option<string>
    requires -1 <= index <= |bits|
    requires t.Node? || index >= |bits| - 1
    decreases |bits| - index
  {
    if index >= |bits| - 1 then Some(decoded)
    else
      match DecodeSymbol(t, bits, index)
      case None => None
      case Some((next, c)) => DecodeFrom(t, bits, next, decoded + [c])
  }

  /** Decoding a whole bit string. */
  function DecodeAll(t: Tree, bits: string): Option<string>
    requires t.Node? || bits == []
  {
    DecodeFrom(t, bits, -1, "")
  }

  /** `codes` gives each character of `t` its path. */
  predicate CodesFollow(codes: map<char, string>, t: Tree)
  {
    forall c :: c in Chars(t) ==> Lookup(codes, c) == Path(t, c)
  }

  /** Cutting a text and putting the pieces back together gives the text. */
  lemma Rejoin(text: string, i: nat)
    requires i <= |text|
    ensures text[..i] + text[i..] == text
  {
  }

  /**
   * Where the code of `text[k]` sits in the encoded text `bits`: right after
   * the codes of `text[..k]`, which end at `pos`, as its path.
   */
  lemma EncodedLayout(t: Tree, codes: map<char, string>, text: string, k: nat, bits: string, pos: nat)
    requires CodesFollow(codes, t) && k < |text| && text[k] in Chars(t)
    requires bits == Encoded(text, codes) && pos == |Encoded(text[..k], codes)|
    ensures pos + |Path(t, text[k])| == |Encoded(text[..k + 1], codes)|
    ensures pos + |Path(t, text[k])| <= |bits|
    ensures bits[pos..pos + |Path(t, text[k])|] == Path(t, text[k])
  {
    var p := Path(t, text[k]);
    assert text[..k + 1][..k] == text[..k];
    var head := Encoded(text[..k + 1], codes);
    assert head == Encoded(text[..k], codes) + p;
    EncodedAppend(text[..k + 1], text[k + 1..], codes);
    Rejoin(text, k + 1);
    assert bits == head + Encoded(text[k + 1..], codes);
    assert bits[..pos + |p|] == head;
  }

  /** Decoding steps over one character whose path sits at `pos`. */
  lemma DecodeStep(t: Tree, bits: string, pos: nat, c: char, decoded: string)
    requires t.Node? && c in Chars(t)
    requires pos + |Path(t, c)| <= |bits| && bits[pos..pos + |Path(t, c)|] == Path(t, c)
    ensures pos <= |bits| - 1
    ensures DecodeFrom(t, bits, pos - 1, decoded) == DecodeFrom(t, bits, pos + |Path(t, c)| - 1, decoded + [c])
  {
    PathNonEmpty(t, c);
    DecodePath(t, c, bits, pos - 1);
  }

  /** From position `pos` on, `bits` holds the paths of `text[k..]`, one after the other, and nothing more. */
  predicate PathsFrom(t: Tree, bits: string, pos: nat, text: string, k: nat)
    requires k <= |text|
    decreases |text| - k
  {
    if k == |text| then pos == |bits|
    else
      && text[k] in Chars(t)
      && pos + |Path(t, text[k])| <= |bits|
      && bits[pos..pos + |Path(t, text[k])|] == Path(t, text[k])
      && PathsFrom(t, bits, pos + |Path(t, text[k])|, text, k + 1)
  }

  /** One step of `PathsFrom`. */
  lemma PathsFromStep(t: Tree, bits: string, pos: nat, text: string, k: nat)
    requires k < |text| && text[k] in Chars(t)
    requires pos + |Path(t, text[k])| <= |bits|
    requires bits[pos..pos + |Path(t, text[k])|] == Path(t, text[k])
    requires PathsFrom(t, bits, pos + |Path(t, text[k])|, text, k + 1)
    ensures PathsFrom(t, bits, pos, text, k)
  {
  }

  /** The code of `text[j]` sits in `bits` from `ends[j]` to `ends[j + 1]`. */
  predicate CodeBetween(t: Tree, bits: string, text: string, ends: seq<nat>, j: nat)
    requires j < |text| && |ends| == |text| + 1
  {
    && text[j] in Chars(t)
    && ends[j] + |Path(t, text[j])| == ends[j + 1] <= |bits|
    && bits[ends[j]..ends[j + 1]] == Path(t, text[j])
  }

  /**
   * `bits` holds the paths of `text[k..]` one after the other when `ends`
   * marks where each one stops.
   */
  lemma {:induction false} PathsBetween(t: Tree, bits: string, text: string, k: nat, ends: seq<nat>)
    requires k <= |text| && |ends| == |text| + 1 && ends[|text|] == |bits|
    requires forall j :: k <= j < |text| ==> CodeBetween(t, bits, text, ends, j)
    ensures PathsFrom(t, bits, ends[k], text, k)
    decreases |text| - k
  {
    if k < |text| {
      PathsBetween(t, bits, text, k + 1, ends);
      assert CodeBetween(t, bits, text, ends, k);
      PathsFromStep(t, bits, ends[k], text, k);
    }
  }

  /** `EncodedLayout` in terms of the boundaries `ends`. */
  lemma EncodedCode(t: Tree, codes: map<char, string>, text: string, bits: string, ends: seq<nat>, j: nat)
    requires CodesFollow(codes, t) && j < |text| && text[j] in Chars(t)
    requires bits == Encoded(text, codes) && |ends| == |text| + 1
    requires ends[j] == |Encoded(text[..j], codes)| && ends[j + 1] == |Encoded(text[..j + 1], codes)|
    ensures CodeBetween(t, bits, text, ends, j)
  {
    EncodedLayout(t, codes, text, j, bits, ends[j]);
  }

  /** Where the code of each character of `text` stops in the encoded text. */
  lemma EncodedEnds(t: Tree, codes: map<char, string>, text: string, bits: string) returns (ends: seq<nat>)
    requires CodesFollow(codes, t)
    requires forall i :: 0 <= i < |text| ==> text[i] in Chars(t)
    requires bits == Encoded(text, codes)
    ensures |ends| == |text| + 1 && ends[|text|] == |bits|
    ensures forall j :: 0 <= j <= |text| ==> ends[j] == |Encoded(text[..j], codes)|
    ensures forall j :: 0 <= j < |text| ==> CodeBetween(t, bits, text, ends, j)
  {
    ends := seq(|text| + 1, j requires 0 <= j <= |text| => |Encoded(text[..j], codes)|);
    assert text[..|text|] == text;
    forall j | 0 <= j < |text|
      ensures CodeBetween(t, bits, text, ends, j)
    {
      EncodedCode(t, codes, text, bits, ends, j);
    }
  }

  /** An encoded text holds the paths of its characters, from the end of the codes of the first `k` on. */
  lemma EncodedPaths(t: Tree, codes: map<char, string>, text: string, k: nat, bits: string, pos: nat)
    requires CodesFollow(codes, t) && k <= |text|
    requires forall i :: 0 <= i < |text| ==> text[i] in Chars(t)
    requires bits == Encoded(text, codes) && pos == |Encoded(text[..k], codes)|
    ensures PathsFrom(t, bits, pos, text, k)
  {
    var ends := EncodedEnds(t, codes, text, bits);
    PathsBetween(t, bits, text, k, ends);
  }

  /** Decoding bits that hold the paths of `text[k..]` from `pos` on adds `text[k..]` to `text[..k]`. */
  lemma {:induction false} DecodePaths(t: Tree, bits: string, pos: nat, text: string, k: nat)
    requires t.Node? && k <= |text| && PathsFrom(t, bits, pos, text, k)
    ensures pos <= |bits|
    ensures DecodeFrom(t, bits, pos - 1, text[..k]) == Some(text)
    decreases |text| - k
  {
    if k == |text| {
      assert text[..k] == text;
    } else {
      var c := text[k];
      DecodeStep(t, bits, pos, c, text[..k]);
      assert text[..k] + [c] == text[..k + 1];
      DecodePaths(t, bits, pos + |Path(t, c)|, text, k + 1);
    }
  }

  /**
   * Decoding every bit of an encoded text gives the text back, when the tree
   * has an inner node, holds each character once and covers the text.
   */
  lemma DecodeEncoded(t: Tree, text: string)
    requires t.Node? && Distinct(t)
    requires forall i :: 0 <= i < |text| ==> text[i] in Chars(t)
    ensures DecodeAll(t, Encoded(text, Codes(t))) == Some(text)
  {
    CodesArePaths(t);
    assert text[..0] == "";
    EncodedPaths(t, Codes(t), text, 0, Encoded(text, Codes(t)), 0);
    DecodePaths(t, Encoded(text, Codes(t)), 0, text, 0);
  }

  /** A tree with two different characters has an inner node at its root. */
  lemma TwoCharsMeansNode(t: Tree, a: char, b: char)
    requires a in Chars(t) && b in Chars(t) && a != b
    ensures t.Node?
  {
  }

  /**
   * With one distinct character the tree is a single leaf, its code is
   * empty, the encoded text is empty and decoding it gives the empty text.
   */
  lemma {:induction false} SingleCharacterLost(c: char, f: int, text: string)
    requires forall i :: 0 <= i < |text| ==> text[i] == c
    ensures Codes(Leaf(c, f)) == map[c := ""]
    ensures Encoded(text, Codes(Leaf(c, f))) == ""
    ensures DecodeAll(Leaf(c, f), Encoded(text, Codes(Leaf(c, f)))) == Some("")
  {
    if text != [] {
      SingleCharacterLost(c, f, text[..|text| - 1]);
    }
  }

  /**
   * The decoding loop of `main` as written: it calls `get_decode_text` only
   * while `index < encoded_text.size() - 2`, so it stops as soon as no more
   * than one bit is left unread.
   */
  function MainDecodeFrom(t: Tree, bits: string, index: int, decoded: string): Option<string>
    requires -1 <= index <= |bits|
    requires t.Node? || index >= |bits| - 2
    decreases |bits| - index
  {
    if index >= |bits| - 2 then Some(decoded)
    else
      match DecodeSymbol(t, bits, index)
      case None => None
      case Some((next, c)) => MainDecodeFrom(t, bits, next, decoded + [c])
  }

  /** Decoding only ever appends to the text decoded so far. */
  lemma {:induction false} DecodeFromKeeps(t: Tree, bits: string, index: int, decoded: string)
    requires -1 <= index <= |bits| && (t.Node? || index >= |bits| - 1)
    requires DecodeFrom(t, bits, index, decoded).Some?
    ensures decoded <= DecodeFrom(t, bits, index, decoded).value
    decreases |bits| - index
  {
    if index < |bits| - 1 {
      var next_c := DecodeSymbol(t, bits, index).value;
      DecodeFromKeeps(t, bits, next_c.0, decoded + [next_c.1]);
      assert decoded <= decoded + [next_c.1];
    }
  }

  /**
   * Wherever decoding every bit succeeds, `main`'s loop gives a prefix of
   * that text: the same characters, possibly without the last ones.
   */
  lemma {:induction false} MainDecodePrefix(t: Tree, bits: string, index: int, decoded: string)
    requires -1 <= index <= |bits| && t.Node?
    requires DecodeFrom(t, bits, index, decoded).Some?
    ensures MainDecodeFrom(t, bits, index, decoded).Some?
    ensures decoded <= MainDecodeFrom(t, bits, index, decoded).value <= DecodeFrom(t, bits, index, decoded).value
    decreases |bits| - index
  {
    if index >= |bits| - 2 {
      DecodeFromKeeps(t, bits, index, decoded);
    } else {
      var next_c := DecodeSymbol(t, bits, index).value;
      MainDecodePrefix(t, bits, next_c.0, decoded + [next_c.1]);
    }
  }

  /**
   * `main`'s loop loses a last character whose code is one bit: over the
   * tree with leaves `'a'` and `'b'`, "ab" is encoded as "01", which
   * decodes to "ab" when every bit is read but to "a" in `main`.
   */
  lemma MainDecodeDropsLastBit()
    ensures Encoded("ab", Codes(Node(2, Leaf('a', 1), Leaf('b', 1)))) == "01"
    ensures DecodeAll(Node(2, Leaf('a', 1), Leaf('b', 1)), "01") == Some("ab")
    ensures MainDecodeFrom(Node(2, Leaf('a', 1), Leaf('b', 1)), "01", -1, "") == Some("a")
  {
    var t := Node(2, Leaf('a', 1), Leaf('b', 1));
    assert "" + "0" == "0" && "" + "1" == "1";
    var left := CodesInto(Leaf('a', 1), "" + "0", map[]);
    assert left == map['a' := "0"];
    assert Codes(t) == CodesInto(Leaf('b', 1), "" + "1", left) == map['a' := "0", 'b' := "1"];
    assert "ab"[..1] == "a" && "a"[..0] == "";
    assert Encoded("a", Codes(t)) == "0";
    assert DecodeSymbol(t, "01", -1) == Some((0, 'a'));
    assert DecodeSymbol(t, "01", 0) == Some((1, 'b'));
    assert DecodeFrom(t, "01", 1, "ab") == Some("ab");
    assert "" + ['a'] == "a" && "a" + ['b'] == "ab";
  }

  /*
   * ---------------------------------------------------------------------
   * Bit-packed results
   * ---------------------------------------------------------------------
   */

  /** `HuffmanResult`: the bytes of the result and the number of bits they carry. */
  datatype HuffmanResult = HuffmanResult(data: seq<bv8>, totalBits: nat)

  /** Bit `pos` of `data`, most significant bit of each byte first. */
  function BitAt(data: seq<bv8>, pos: nat): (b: int)
    requires pos / 8 < |data|
    ensures b == 0 || b == 1
  {
    ((data[pos / 8] >> (7 - pos % 8)) & 1) as int
  }

  /** Bit `j` of byte `k`, counting from the most significant, is the byte shifted right by `7 - j`. */
  lemma BitOfByte(data: seq<bv8>, k: nat, j: nat)
    requires k < |data| && j < 8
    ensures (8 * k + j) / 8 == k && (8 * k + j) % 8 == j
    ensures BitAt(data, 8 * k + j) == ((data[k] >> (7 - j)) & 1) as int
  {
  }

  lemma ByteBitsHigh(data: seq<bv8>, k: nat)
    requires k < |data|
    ensures BitAt(data, 8 * k) == ((data[k] >> 7) & 1) as int
    ensures BitAt(data, 8 * k + 1) == ((data[k] >> 6) & 1) as int
    ensures BitAt(data, 8 * k + 2) == ((data[k] >> 5) & 1) as int
    ensures BitAt(data, 8 * k + 3) == ((data[k] >> 4) & 1) as int
  {
    BitOfByte(data, k, 0);
    BitOfByte(data, k, 1);
    BitOfByte(data, k, 2);
    BitOfByte(data, k, 3);
  }

  lemma ByteBitsLow(data: seq<bv8>, k: nat)
    requires k < |data|
    ensures BitAt(data, 8 * k + 4) == ((data[k] >> 3) & 1) as int
    ensures BitAt(data, 8 * k + 5) == ((data[k] >> 2) & 1) as int
    ensures BitAt(data, 8 * k + 6) == ((data[k] >> 1) & 1) as int
    ensures BitAt(data, 8 * k + 7) == (data[k] & 1) as int
  {
    BitOfByte(data, k, 4);
    BitOfByte(data, k, 5);
    BitOfByte(data, k, 6);
    BitOfByte(data, k, 7);
  }

  /** A byte is the sum of its bits, each weighed by its power of two. */
  lemma ByteSum(d: bv8)
    ensures d as int == 128 * ((d >> 7) & 1) as int + 64 * ((d >> 6) & 1) as int + 32 * ((d >> 5) & 1) as int
      + 16 * ((d >> 4) & 1) as int + 8 * ((d >> 3) & 1) as int + 4 * ((d >> 2) & 1) as int
      + 2 * ((d >> 1) & 1) as int + (d & 1) as int
  {
    assert d == (((d >> 7) & 1) << 7) | (((d >> 6) & 1) << 6) | (((d >> 5) & 1) << 5) | (((d >> 4) & 1) << 4)
      | (((d >> 3) & 1) << 3) | (((d >> 2) & 1) << 2) | (((d >> 1) & 1) << 1) | (d & 1);
  }

  /** The eight bits of a byte, read in order, are its binary digits from the most significant down. */
  lemma ByteFromBits(data: seq<bv8>, k: nat)
    requires k < |data|
    ensures data[k] as int == 128 * BitAt(data, 8 * k) + 64 * BitAt(data, 8 * k + 1)
      + 32 * BitAt(data, 8 * k + 2) + 16 * BitAt(data, 8 * k + 3) + 8 * BitAt(data, 8 * k + 4)
      + 4 * BitAt(data, 8 * k + 5) + 2 * BitAt(data, 8 * k + 6) + BitAt(data, 8 * k + 7)
  {
    ByteBitsLow(data, k);
    ByteBitsHigh(data, k);
    ByteSum(data[k]);
  }

  /** `BitReader`: reads `data` one bit at a time, most significant bit of each byte first. */
  class BitReader {
    const data: seq<bv8>
    var bitPos: nat
    const totalBits: nat

    constructor(d: seq<bv8>, bits: nat)
      ensures data == d && totalBits == bits && bitPos == 0
    {
      data := d;
      totalBits := bits;
      bitPos := 0;
    }

    /** `has_bits`: bits remain to be read. */
    function HasBits(): (b: bool)
      reads this
      ensures b <==> bitPos < totalBits
    {
      bitPos < totalBits
    }

    /**
     * `read_bit`: the bit at the read position, which then moves on by one.
     * There is no bounds check. Indexing a `std::string` at its size gives
     * the terminating NUL, so a read in the byte just past `data` gives 0;
     * a read beyond that byte is undefined and excluded.
     */
    method ReadBit() returns (b: int)
      modifies this
      requires bitPos / 8 <= |data|
      ensures old(bitPos) / 8 < |data| ==> b == BitAt(data, old(bitPos))
      ensures old(bitPos) / 8 == |data| ==> b == 0
      ensures b == 0 || b == 1
      ensures bitPos == old(bitPos) + 1
    {
      var byteIdx := bitPos / 8;
      var bitIdx := 7 - bitPos % 8;
      bitPos := bitPos + 1;
      var byte: bv8 := if byteIdx < |data| then data[byteIdx] else 0;
      b := ((byte >> bitIdx) & 1) as int;
    }
  }

  /** The bits a packed result carries, as `'0'` and `'1'` characters. */
  function Unpack(r: HuffmanResult): (bits: string)
    requires r.totalBits <= 8 * |r.data|
    ensures |bits| == r.totalBits
    ensures forall i :: 0 <= i < |bits| ==> (bits[i] == '0' <==> BitAt(r.data, i) == 0)
    ensures forall i :: 0 <= i < |bits| ==> (bits[i] == '1' <==> BitAt(r.data, i) == 1)
  {
    seq(r.totalBits, i requires 0 <= i < r.totalBits => if BitAt(r.data, i) == 1 then '1' else '0')
  }

  /**
   * What `get_encoded_bitpacked_text` promises: `r` holds the bit string
   * `bits`, one bit per character (a `'0'` as 0, anything else as 1), most
   * significant bit of each byte first, and `total_bits` is its length.
   */
  predicate PacksBits(r: HuffmanResult, bits: string)
  {
    && r.totalBits == |bits|
    && |bits| <= 8 * |r.data|
    && forall i :: 0 <= i < |bits| ==> (bits[i] == '0' <==> BitAt(r.data, i) == 0)
  }

  /** `get_bit_packed_decoded_text`: decode the bits a packed result carries. */
  function BitPackedDecoded(t: Tree, r: HuffmanResult): Option<string>
    requires r.totalBits <= 8 * |r.data|
    requires t.Node? || r.totalBits == 0
  {
    DecodeAll(t, Unpack(r))
  }

  /**
   * Packing the encoded text and decoding the packed bits gives the text
   * back: only whether a bit is `'0'` matters to the decoder.
   */
  lemma BitPackedRoundTrip(t: Tree, text: string, r: HuffmanResult)
    requires t.Node? && Distinct(t)
    requires forall i :: 0 <= i < |text| ==> text[i] in Chars(t)
    requires PacksBits(r, Encoded(text, Codes(t)))
    ensures BitPackedDecoded(t, r) == Some(text)
  {
    var bits := Encoded(text, Codes(t));
    DecodeEncoded(t, text);
    BinaryDecodeAgrees(t, bits, Unpack(r));
  }

  /** Two bit strings with `'0'` at the same positions decode alike. */
  lemma BinaryDecodeAgrees(t: Tree, a: string, b: string)
    requires t.Node?
    requires |a| == |b| && forall i :: 0 <= i < |a| ==> (a[i] == '0' <==> b[i] == '0')
    ensures DecodeAll(t, a) == DecodeAll(t, b)
  {
    DecodeFromAgrees(t, a, b, -1, "");
  }

  lemma {:induction false} DecodeFromAgrees(t: Tree, a: string, b: string, index: int, decoded: string)
    requires t.Node? && -1 <= index <= |a|
    requires |a| == |b| && forall i :: 0 <= i < |a| ==> (a[i] == '0' <==> b[i] == '0')
    ensures DecodeFrom(t, a, index, decoded) == DecodeFrom(t, b, index, decoded)
    decreases |a| - index
  {
    if index < |a| - 1 {
      SymbolAgrees(t, a, b, index);
      match DecodeSymbol(t, a, index)
      case None =>
      case Some((next, c)) => DecodeFromAgrees(t, a, b, next, decoded + [c]);
    }
  }

  lemma {:induction false} SymbolAgrees(t: Tree, a: string, b: string, index: int)
    requires -1 <= index <= |a|
    requires |a| == |b| && forall i :: 0 <= i < |a| ==> (a[i] == '0' <==> b[i] == '0')
    ensures DecodeSymbol(t, a, index) == DecodeSymbol(t, b, index)
  {
    match t
    case Leaf(_, _) =>
    case Node(_, left, right) =>
      if index + 1 <= |a| {
        SymbolAgrees(left, a, b, index + 1);
        SymbolAgrees(right, a, b, index + 1);
      }
  }
}
