/** Counting words (the reference) and the character trie (src/core/Trie.c). */
module Words {

  /** How often `w` occurs in `ws`. */
  function CountEq(ws: seq<string>, w: string): nat {
    if ws == [] then 0 else CountEq(ws[..|ws| - 1], w) + if ws[|ws| - 1] == w then 1 else 0
  }

  /** How many words of `ws` start with `p`. */
  function CountPrefix(ws: seq<string>, p: string): nat {
    if ws == [] then 0 else CountPrefix(ws[..|ws| - 1], p) + if p <= ws[|ws| - 1] then 1 else 0
  }

  lemma CountAppend(ws: seq<string>, w: string, p: string)
    ensures CountEq(ws + [w], p) == CountEq(ws, p) + if w == p then 1 else 0
    ensures CountPrefix(ws + [w], p) == CountPrefix(ws, p) + if p <= w then 1 else 0
  {
    assert (ws + [w])[..|ws|] == ws;
  }

  /** The count is the multiplicity. */
  lemma {:induction false} CountEqIsMultiplicity(ws: seq<string>, w: string)
    ensures CountEq(ws, w) == multiset(ws)[w]
  {
    if ws != [] {
      var n := |ws| - 1;
      CountEqIsMultiplicity(ws[..n], w);
      assert ws == ws[..n] + [ws[n]];
    }
  }

  /** The count is the number of positions that hold a word with the prefix. */
  lemma {:induction false} CountPrefixIsNumber(ws: seq<string>, p: string)
    ensures CountPrefix(ws, p) == |WithPrefix(ws, p)|
  {
    if ws == [] {
      assert WithPrefix(ws, p) == {};
    } else {
      var n := |ws| - 1;
      CountPrefixIsNumber(ws[..n], p);
      var before := WithPrefix(ws[..n], p);
      assert WithPrefix(ws, p) == if p <= ws[n] then before + {n} else before;
    }
  }

  ghost function WithPrefix(ws: seq<string>, p: string): set<nat> {
    set i: nat | i < |ws| && p <= ws[i]
  }

  lemma {:induction false} CountEqBound(ws: seq<string>, w: string)
    ensures CountEq(ws, w) <= CountPrefix(ws, w)
  {
    if ws != [] {
      CountEqBound(ws[..|ws| - 1], w);
    }
  }

  /** One character more matches one prefix more: the word itself. */
  lemma PrefixStep(w: string, i: nat, p: string)
    requires i < |w|
    ensures p <= w[..i + 1] <==> p <= w[..i] || p == w[..i + 1]
  {
    if p <= w[..i + 1] && |p| == i + 1 {
      assert p == w[..i + 1];
    }
  }

  /** A longer prefix is shared by no more words. */
  lemma {:induction false} CountPrefixMono(ws: seq<string>, p: string, q: string)
    requires p <= q
    ensures CountPrefix(ws, q) <= CountPrefix(ws, p)
  {
    if ws != [] {
      CountPrefixMono(ws[..|ws| - 1], p, q);
    }
  }

  ghost predicate Over(charSet: string, w: string) {
    forall i :: 0 <= i < |w| ==> w[i] in charSet
  }

  /** The position of the first occurrence of `c`, or -1. */
  function CharIndex(charSet: string, c: char): (r: int)
    ensures -1 <= r < |charSet|
    ensures r >= 0 <==> c in charSet
    ensures r >= 0 ==> charSet[r] == c && c !in charSet[..r]
  {
    if charSet == [] then -1
    else if charSet[0] == c then 0
    else
      var r := CharIndex(charSet[1..], c);
      if r < 0 then -1 else r + 1
  }

  /** The length of the longest prefix of `w` over the character set. */
  ghost function GoodLength(charSet: string, w: string): (k: nat)
    ensures k <= |w| && Over(charSet, w[..k])
    ensures k < |w| ==> w[k] !in charSet
  {
    if w == [] || w[0] !in charSet then 0
    else
      var k := GoodLength(charSet, w[1..]);
      assert w[..k + 1] == [w[0]] + w[1..][..k];
      k + 1
  }

  lemma GoodLengthUnique(charSet: string, w: string, i: nat)
    requires i <= |w| && Over(charSet, w[..i])
    ensures i <= GoodLength(charSet, w)
    ensures i < |w| && w[i] !in charSet ==> i == GoodLength(charSet, w)
    ensures i == |w| ==> i == GoodLength(charSet, w)
  {
    var k := GoodLength(charSet, w);
    if i < k {
      assert w[..k][i] in charSet;
    }
  }

  // --------------------------------------------- a prefix count, character by character

  /** Does `w` continue the prefix `p` with one of the first `k` distinct characters of the set? */
  function Continues(charSet: string, k: nat, w: string, p: string): nat
    requires k <= |charSet|
  {
    if k == 0 then 0
    else
      Continues(charSet, k - 1, w, p)
      + if CharIndex(charSet, charSet[k - 1]) == k - 1 && p + [charSet[k - 1]] <= w then 1 else 0
  }

  /** The words that continue `p` with one of the first `k` distinct characters, summed by character. */
  function CountKids(charSet: string, k: nat, ws: seq<string>, p: string): nat
    requires k <= |charSet|
  {
    if k == 0 then 0
    else
      CountKids(charSet, k - 1, ws, p)
      + if CharIndex(charSet, charSet[k - 1]) == k - 1 then CountPrefix(ws, p + [charSet[k - 1]]) else 0
  }

  lemma {:induction false} ContinuesOnce(charSet: string, k: nat, w: string, p: string)
    requires k <= |charSet|
    ensures Continues(charSet, k, w, p) ==
            if p <= w && |p| < |w| && 0 <= CharIndex(charSet, w[|p|]) < k then 1 else 0
  {
    if k > 0 {
      ContinuesOnce(charSet, k - 1, w, p);
      var c := charSet[k - 1];
      assert p + [c] <= w <==> p <= w && |p| < |w| && w[|p|] == c;
    }
  }

  lemma {:induction false} CountKidsAppend(charSet: string, k: nat, ws: seq<string>, w: string, p: string)
    requires k <= |charSet|
    ensures CountKids(charSet, k, ws + [w], p) == CountKids(charSet, k, ws, p) + Continues(charSet, k, w, p)
  {
    if k > 0 {
      CountKidsAppend(charSet, k - 1, ws, w, p);
      CountAppend(ws, w, p + [charSet[k - 1]]);
    }
  }

  lemma {:induction false} CountKidsNone(charSet: string, k: nat, p: string)
    requires k <= |charSet|
    ensures CountKids(charSet, k, [], p) == 0
  {
    if k > 0 {
      CountKidsNone(charSet, k - 1, p);
    }
  }

  /** Words with a prefix are those equal to it plus those that go on with some character of the set. */
  lemma {:induction false} CountSplit(charSet: string, ws: seq<string>, p: string)
    requires forall w :: w in ws ==> Over(charSet, w)
    ensures CountPrefix(ws, p) == CountEq(ws, p) + CountKids(charSet, |charSet|, ws, p)
  {
    if ws == [] {
      CountKidsNone(charSet, |charSet|, p);
    } else {
      var rest, w := ws[..|ws| - 1], ws[|ws| - 1];
      assert ws == rest + [w];
      CountSplit(charSet, rest, p);
      CountKidsAppend(charSet, |charSet|, rest, w, p);
      ContinuesOnce(charSet, |charSet|, w, p);
      assert w in ws && Over(charSet, w);
      assert |p| < |w| ==> w[|p|] in charSet;
      assert p <= w && |p| == |w| ==> p == w;
      CountAppend(rest, w, p);
    }
  }

  lemma {:induction false} CountOfMember(ws: seq<string>, w: string)
    requires w in ws
    ensures CountPrefix(ws, w) > 0
  {
    if ws[|ws| - 1] != w {
      CountOfMember(ws[..|ws| - 1], w);
    }
  }
}

module Trie {
  import opened Words

  lemma GoodLengthOver(charSet: string, w: string)
    ensures Over(charSet, w) <==> GoodLength(charSet, w) == |w|
  {
    var k := GoodLength(charSet, w);
    assert w[..|w|] == w;
    if k < |w| {
      assert w[k] !in charSet;
    }
  }

  class TrieNode {
    var end: int
    var pass: int
    var table: array<TrieNode?>

    /** __new_node: an empty table; `pass` counts from zero. */
    constructor (size: nat)
      ensures end == 0 && pass == 0 && fresh(table) && table.Length == size
      ensures forall i :: 0 <= i < size ==> table[i] == null
    {
      end := 0;
      pass := 0;
      table := new TrieNode?[size](_ => null);
    }
  }

  /** The node that the entry for character `c` below the path `p` must point to. */
  ghost function ChildAt(at: map<string, TrieNode>, p: string, c: char): TrieNode? {
    if p + [c] in at then at[p + [c]] else null
  }

  /** The table of node `n`, at path `p`, leads to exactly the paths one character longer. */
  ghost predicate TableOk(charSet: string, at: map<string, TrieNode>, p: string, n: TrieNode)
    reads n`table, n.table
  {
    && n.table.Length == |charSet|
    && forall i :: 0 <= i < |charSet| ==>
         n.table[i] == if CharIndex(charSet, charSet[i]) == i then ChildAt(at, p, charSet[i]) else null
  }

  /** Pass counts of completed words plus those of the walks of failed inserts. */
  ghost function Passes(words: seq<string>, strays: seq<string>, p: string): nat {
    CountPrefix(words, p) + CountPrefix(strays, p)
  }

  /** The counters of node `n`, at path `p`. */
  ghost predicate NodeOk(words: seq<string>, strays: seq<string>, p: string, n: TrieNode)
    reads n`end, n`pass
  {
    && n.end == CountEq(words, p)
    && n.pass == if p == [] then 0 else Passes(words, strays, p)
  }

  /** The paths are the prefixes of what has been walked. */
  ghost predicate PathsOk(charSet: string, at: map<string, TrieNode>, words: seq<string>, strays: seq<string>) {
    && [] in at
    && (forall p :: p in at <==> p == [] || Passes(words, strays, p) > 0)
    && (forall p :: p in at ==> Over(charSet, p))
  }

  ghost predicate Separate(at: map<string, TrieNode>)
    reads at.Values`table
  {
    forall p, q :: p in at && q in at && p != q ==> at[p] != at[q] && at[p].table != at[q].table
  }

  ghost function TablesOf(at: map<string, TrieNode>): set<array<TrieNode?>>
    reads at.Values`table
  {
    set p | p in at :: at[p].table
  }

  ghost predicate TablesOk(charSet: string, at: map<string, TrieNode>)
    reads at.Values`table, TablesOf(at)
  {
    forall p {:trigger TableOk(charSet, at, p, at[p])} :: p in at ==> TableOk(charSet, at, p, at[p])
  }

  ghost predicate CountsOk(at: map<string, TrieNode>, words: seq<string>, strays: seq<string>)
    reads at.Values`end, at.Values`pass
  {
    forall p {:trigger NodeOk(words, strays, p, at[p])} :: p in at ==> NodeOk(words, strays, p, at[p])
  }

  /** The sum of `pass` over the children in the first `k` table entries. */
  ghost function TablePass(n: TrieNode, k: nat): int
    requires k <= n.table.Length
    reads n, n.table, n.table[..]
  {
    if k == 0 then 0
    else TablePass(n, k - 1) + if n.table[k - 1] == null then 0 else n.table[k - 1].pass
  }

  class Trie {
    const charSet: string
    var root: TrieNode
    ghost var at: map<string, TrieNode>
    ghost var words: seq<string>
    ghost var strays: seq<string>
    ghost var repr: set<object>

    ghost predicate Valid()
      reads this, repr, at.Values, TablesOf(at)
    {
      && at.Values <= repr && TablesOf(at) <= repr
      && PathsOk(charSet, at, words, strays)
      && at[[]] == root
      && Separate(at)
      && TablesOk(charSet, at)
      && CountsOk(at, words, strays)
    }

    constructor (charSet: string)
      ensures Valid() && this.charSet == charSet && words == [] && strays == []
      ensures fresh(repr)
    {
      this.charSet := charSet;
      var node := new TrieNode(|charSet|);
      root := node;
      at := map[[] := node];
      words := [];
      strays := [];
      repr := {node, node.table};
      new;
      assert at[[]] == node;
    }

    /** __get_char_index */
    method GetCharIndex(c: char) returns (index: int)
      ensures index == CharIndex(charSet, c)
    {
      for i := 0 to |charSet|
        invariant c !in charSet[..i]
      {
        if charSet[i] == c {
          return i;
        }
      }
      return -1;
    }

    lemma ChildOf(p: string, c: char)
      requires Valid() && p in at && c in charSet
      ensures CharIndex(charSet, c) < at[p].table.Length
      ensures at[p].table[CharIndex(charSet, c)] == ChildAt(at, p, c)
    {
      assert TableOk(charSet, at, p, at[p]);
    }

    /** The walk that __search and __search_prefix share. */
    method Find(word: string) returns (code: int, node: TrieNode)
      requires Valid()
      ensures code == 1 <==> Over(charSet, word) && word in at
      ensures code == 1 ==> node == at[word]
      ensures code == -1 <==> GoodLength(charSet, word) < |word| && word[..GoodLength(charSet, word)] in at
      ensures code == 0 || code == 1 || code == -1
    {
      node := root;
      for i := 0 to |word|
        invariant Over(charSet, word[..i])
        invariant word[..i] in at && node == at[word[..i]]
      {
        GoodLengthUnique(charSet, word, i);
        var index := GetCharIndex(word[i]);
        if index < 0 {
          return -1, node;
        }
        ChildOf(word[..i], word[i]);
        assert word[..i + 1] == word[..i] + [word[i]];
        var next := node.table[index];
        if next == null {
          Missing(word, i);
          return 0, node;
        }
        node := next;
      }
      assert word[..|word|] == word;
      GoodLengthUnique(charSet, word, |word|);
      code := 1;
    }

    /** Where a prefix is missing, every longer one is missing too. */
    lemma Missing(word: string, i: nat)
      requires Valid() && i < |word| && word[..i + 1] !in at
      ensures forall k :: i < k <= |word| ==> word[..k] !in at
      ensures word !in at
    {
      forall k | i < k <= |word| ensures word[..k] !in at {
        assert word[..i + 1] <= word[..k];
        CountPrefixMono(words, word[..i + 1], word[..k]);
        CountPrefixMono(strays, word[..i + 1], word[..k]);
      }
      assert word[..|word|] == word;
    }

    /** Every walked word is over the character set. */
    lemma WalkedOver()
      requires Valid()
      ensures forall w :: w in words || w in strays ==> Over(charSet, w)
    {
      forall w | w in words || w in strays ensures w in at {
        if w in words {
          CountOfMember(words, w);
        } else {
          CountOfMember(strays, w);
        }
      }
    }

    /**
     At every node but the root, what passed through either ended here, went on to a child, or
     was a failed insert that stopped here.
     */
    lemma PassBalance(p: string)
      requires Valid() && p in at && p != []
      ensures at[p].pass == at[p].end + TablePass(at[p], at[p].table.Length) + CountEq(strays, p)
    {
      WalkedOver();
      CountSplit(charSet, words, p);
      CountSplit(charSet, strays, p);
      assert NodeOk(words, strays, p, at[p]) && TableOk(charSet, at, p, at[p]);
      TableSum(p, |charSet|);
    }

    lemma {:induction false} TableSum(p: string, k: nat)
      requires Valid() && p in at && k <= |charSet| == at[p].table.Length
      ensures TablePass(at[p], k) == CountKids(charSet, k, words, p) + CountKids(charSet, k, strays, p)
    {
      if k > 0 {
        TableSum(p, k - 1);
        EntryPass(p, k - 1);
      }
    }

    /** A table entry that is NULL stands for a path nobody walked. */
    lemma EntryPass(p: string, i: nat)
      requires Valid() && p in at && i < |charSet| == at[p].table.Length
      ensures (if at[p].table[i] == null then 0 else at[p].table[i].pass) ==
              if CharIndex(charSet, charSet[i]) == i then Passes(words, strays, p + [charSet[i]]) else 0
    {
      var q := p + [charSet[i]];
      assert TableOk(charSet, at, p, at[p]);
      if q in at {
        assert NodeOk(words, strays, q, at[q]);
      }
    }

    /** __search: how often the word was inserted; -1 when the walk meets a foreign character. */
    method Search(word: string) returns (r: int)
      requires Valid()
      ensures Over(charSet, word) ==> r == CountEq(words, word)
      ensures !Over(charSet, word) ==>
                var k := GoodLength(charSet, word);
                r == if word[..k] in at then -1 else 0
    {
      var code, node := Find(word);
      GoodLengthOver(charSet, word);
      if code == 1 {
        assert NodeOk(words, strays, word, at[word]);
        return node.end;
      }
      CountEqBound(words, word);
      return code;
    }

    /**
     __search_prefix: how many walks went through the prefix. That is the number of inserted
     words with the prefix exactly when no failed insert went through it.
     */
    method SearchPrefix(word: string) returns (r: int)
      requires Valid()
      ensures Over(charSet, word) && word != [] ==> r == CountPrefix(words, word) + CountPrefix(strays, word)
      ensures Over(charSet, word) && word != [] ==>
                (r == CountPrefix(words, word) <==> CountPrefix(strays, word) == 0)
      ensures word == [] ==> r == 0
      ensures !Over(charSet, word) ==>
                var k := GoodLength(charSet, word);
                r == if word[..k] in at then -1 else 0
    {
      var code, node := Find(word);
      GoodLengthOver(charSet, word);
      if code == 1 {
        assert NodeOk(words, strays, word, at[word]);
        return node.pass;
      }
      return code;
    }

    /** One round of the loop of __insert: from path `p` to the path one character longer. */
    method Descend(node: TrieNode, ghost p: string, c: char, index: nat, ghost others: seq<string>)
      returns (next: TrieNode)
      requires Valid() && p in at && node == at[p] && c in charSet && index == CharIndex(charSet, c)
      requires strays == others + [p]
      modifies this`at, this`strays, this`repr, repr
      ensures Valid() && words == old(words) && strays == others + [p + [c]]
      ensures p + [c] in at && next == at[p + [c]]
      ensures fresh(repr - old(repr))
    {
      ghost var at';
      next, at' := Step(charSet, at, node, p, c, index, words, others);
      assert at'.Values <= at.Values + {next};
      assert TablesOf(at') <= TablesOf(at) + {next.table};
      Adopt(at', others + [p + [c]], {next, next.table});
    }

    ghost method Adopt(at': map<string, TrieNode>, strays': seq<string>, extra: set<object>)
      requires at'.Values <= repr + extra && TablesOf(at') <= repr + extra
      requires PathsOk(charSet, at', words, strays') && at'[[]] == root
      requires Separate(at') && TablesOk(charSet, at') && CountsOk(at', words, strays')
      modifies this`at, this`strays, this`repr
      ensures Valid() && at == at' && strays == strays' && repr == old(repr) + extra
    {
      at := at';
      strays := strays';
      repr := repr + extra;
    }

    /**
     __insert: returns the new multiplicity of the word. A foreign character stops the walk with
     -1, but the characters before it stay counted in `pass`.
     */
    method Insert(word: string) returns (r: int)
      requires Valid()
      modifies this`at, this`words, this`strays, this`repr, repr
      ensures Valid() && fresh(repr - old(repr))
      ensures Over(charSet, word) ==>
                words == old(words) + [word] && strays == old(strays) && r == CountEq(words, word)
      ensures !Over(charSet, word) ==>
                words == old(words) && strays == old(strays) + [word[..GoodLength(charSet, word)]] && r == -1
    {
      ghost var others := strays;
      StartWalk();
      var ok, node := WalkWord(word, others);
      if !ok {
        return -1;
      }
      r := EndWalk(node, word, others);
    }

    /** The loop of __insert. */
    method WalkWord(word: string, ghost others: seq<string>) returns (ok: bool, node: TrieNode)
      requires Valid() && strays == others + [[]]
      modifies this`at, this`strays, this`repr, repr
      ensures Valid() && fresh(repr - old(repr)) && words == old(words)
      ensures ok <==> Over(charSet, word)
      ensures strays == others + [word[..GoodLength(charSet, word)]]
      ensures ok ==> strays == others + [word] && word in at && node == at[word]
    {
      GoodLengthOver(charSet, word);
      node := root;
      for i := 0 to |word|
        invariant Valid() && words == old(words) && strays == others + [word[..i]]
        invariant word[..i] in at && node == at[word[..i]]
        invariant fresh(repr - old(repr))
      {
        assert Over(charSet, word[..i]);
        GoodLengthUnique(charSet, word, i);
        var index := GetCharIndex(word[i]);
        if index < 0 {
          return false, node;
        }
        assert word[..i + 1] == word[..i] + [word[i]];
        node := Descend(node, word[..i], word[i], index, others);
      }
      assert word[..|word|] == word;
      GoodLengthUnique(charSet, word, |word|);
      ok := true;
    }

    ghost method StartWalk()
      requires Valid()
      modifies this`strays
      ensures Valid() && strays == old(strays) + [[]]
    {
      EmptyWalk(words, strays);
      forall p | p in at ensures NodeOk(words, strays + [[]], p, at[p]) {
        assert NodeOk(words, strays, p, at[p]);
      }
      strays := strays + [[]];
    }

    /** The last line of __insert. */
    method EndWalk(node: TrieNode, ghost word: string, ghost others: seq<string>) returns (r: int)
      requires Valid() && word in at && node == at[word] && strays == others + [word]
      modifies this`words, this`strays, node`end
      ensures Valid() && words == old(words) + [word] && strays == others
      ensures r == CountEq(words, word)
    {
      WalkBecomesWord(words, others, word);
      BumpEnd(at, node, word, words, others);
      words := words + [word];
      strays := others;
      assert NodeOk(words, strays, word, at[word]);
      return node.end;
    }
  }

  /** Counts one more word that ends at the node with path `word`. */
  method BumpEnd(ghost at: map<string, TrieNode>, node: TrieNode, ghost word: string,
                 ghost words: seq<string>, ghost others: seq<string>)
    requires word in at && node == at[word] && Separate(at) && CountsOk(at, words, others + [word])
    modifies node`end
    ensures CountsOk(at, words + [word], others)
  {
    assert NodeOk(words, others + [word], word, at[word]);
    WalkBecomesWord(words, others, word);
    node.end := node.end + 1;
    forall p | p in at ensures NodeOk(words + [word], others, p, at[p]) {
      assert old(NodeOk(words, others + [word], p, at[p]));
      CountAppend(words, word, p);
    }
  }

  /** A failed insert is no word, yet its first characters are found as a prefix. */
  method FailedInsertIsCounted() returns (r: int)
    ensures r == 1
  {
    var t := new Trie("a");
    var code := t.Insert("ab");
    GoodLengthUnique("a", "ab", 1);
    assert t.words == [] && t.strays == [] + ["ab"[..1]];
    assert "ab"[..1] == "a";
    CountAppend([], "a", "a");
    r := t.SearchPrefix("a");
  }

  /** An empty walk counts nowhere but at the root. */
  lemma EmptyWalk(words: seq<string>, strays: seq<string>)
    ensures forall r :: r != [] ==> Passes(words, strays + [[]], r) == Passes(words, strays, r)
  {
    forall r ensures r != [] ==> Passes(words, strays + [[]], r) == Passes(words, strays, r) {
      CountAppend(strays, [], r);
    }
  }

  /** A walk that ends well is an inserted word. */
  lemma WalkBecomesWord(words: seq<string>, strays: seq<string>, w: string)
    ensures forall r :: Passes(words + [w], strays, r) == Passes(words, strays + [w], r)
  {
    forall r ensures Passes(words + [w], strays, r) == Passes(words, strays + [w], r) {
      CountAppend(words, w, r);
      CountAppend(strays, w, r);
    }
  }

  /** One more character moves one walk to the longer path, and that counts nowhere else. */
  lemma DescendPasses(words: seq<string>, others: seq<string>, p: string, c: char)
    ensures forall r :: Passes(words, others + [p + [c]], r) ==
                        Passes(words, others + [p], r) + if r == p + [c] then 1 else 0
  {
    forall r ensures Passes(words, others + [p + [c]], r) ==
                     Passes(words, others + [p], r) + if r == p + [c] then 1 else 0
    {
      CountAppend(others, p + [c], r);
      CountAppend(others, p, r);
      PrefixStep(p + [c], |p|, r);
      assert (p + [c])[..|p|] == p && (p + [c])[..|p| + 1] == p + [c];
    }
  }

  /** A path that does not exist has no longer ones, and counts nothing. */
  lemma NothingBelow(charSet: string, at: map<string, TrieNode>, words: seq<string>, strays: seq<string>, q: string)
    requires PathsOk(charSet, at, words, strays) && q !in at
    ensures forall d :: q + [d] !in at
    ensures Passes(words, strays, q) == 0 && CountEq(words, q) == 0
  {
    CountEqBound(words, q);
    forall d ensures q + [d] !in at {
      assert q <= q + [d];
      CountPrefixMono(words, q, q + [d]);
      CountPrefixMono(strays, q, q + [d]);
    }
  }

  /** One round of the loop of __insert, on the nodes alone. */
  method Step(charSet: string, ghost at: map<string, TrieNode>, node: TrieNode, ghost p: string, c: char, index: nat,
              ghost words: seq<string>, ghost others: seq<string>)
    returns (next: TrieNode, ghost at': map<string, TrieNode>)
    requires PathsOk(charSet, at, words, others + [p]) && p in at && node == at[p]
    requires c in charSet && index == CharIndex(charSet, c)
    requires TablesOk(charSet, at) && Separate(at) && CountsOk(at, words, others + [p])
    modifies node.table, at.Values`pass
    ensures at' == at[p + [c] := next]
    ensures p + [c] in at ==> next == at[p + [c]]
    ensures p + [c] !in at ==> fresh(next) && fresh(next.table)
    ensures PathsOk(charSet, at', words, others + [p + [c]])
    ensures TablesOk(charSet, at') && Separate(at') && CountsOk(at', words, others + [p + [c]])
  {
    ghost var q := p + [c];
    next, at' := EnsureChild(charSet, at, node, p, c, index, words, others + [p]);
    DescendPasses(words, others, p, c);
    DescendPaths(charSet, at, words, others, p, c, at');
    Bump(at', next, q, words, others + [p], others + [q]);
  }

  /** Makes sure the node at path `p` has a child for character `c`, and returns it. */
  method EnsureChild(charSet: string, ghost at: map<string, TrieNode>, node: TrieNode,
                     ghost p: string, c: char, index: nat,
                     ghost words: seq<string>, ghost strays: seq<string>)
    returns (next: TrieNode, ghost at': map<string, TrieNode>)
    requires PathsOk(charSet, at, words, strays) && p in at && node == at[p]
    requires c in charSet && index == CharIndex(charSet, c)
    requires TablesOk(charSet, at) && Separate(at) && CountsOk(at, words, strays)
    modifies node.table
    ensures at' == at[p + [c] := next]
    ensures p + [c] in at ==> next == at[p + [c]]
    ensures p + [c] !in at ==> fresh(next) && fresh(next.table)
    ensures TablesOk(charSet, at') && Separate(at') && CountsOk(at', words, strays)
  {
    ghost var q := p + [c];
    assert TableOk(charSet, at, p, at[p]);
    assert charSet[index] == c;
    if node.table[index] == null {
      NothingBelow(charSet, at, words, strays, q);
      next := AddChild(charSet, at, node, p, c, index);
      at' := at[q := next];
      forall r | r in at' ensures NodeOk(words, strays, r, at'[r]) {
        assert r != q ==> old(NodeOk(words, strays, r, at[r]));
      }
    } else {
      next := node.table[index];
      at' := at;
      assert at[q := next] == at;
    }
  }

  lemma DescendPaths(charSet: string, at: map<string, TrieNode>, words: seq<string>, others: seq<string>,
                     p: string, c: char, at': map<string, TrieNode>)
    requires PathsOk(charSet, at, words, others + [p]) && p in at && c in charSet
    requires at'.Keys == at.Keys + {p + [c]}
    ensures PathsOk(charSet, at', words, others + [p + [c]])
  {
    DescendPasses(words, others, p, c);
    assert [] in at';
    forall r ensures r in at' <==> r == [] || Passes(words, others + [p + [c]], r) > 0 {
      assert r in at <==> r == [] || Passes(words, others + [p], r) > 0;
    }
  }

  /** Creates the missing child for character `c` of the node at path `p`. */
  method AddChild(charSet: string, ghost at: map<string, TrieNode>, node: TrieNode,
                  ghost p: string, c: char, index: nat)
    returns (n: TrieNode)
    requires p in at && node == at[p] && c in charSet && index == CharIndex(charSet, c)
    requires p + [c] !in at && (forall d :: p + [c] + [d] !in at)
    requires TablesOk(charSet, at) && Separate(at)
    modifies node.table
    ensures TablesOk(charSet, at[p + [c] := n]) && Separate(at[p + [c] := n])
    ensures fresh(n) && fresh(n.table) && n.end == 0 && n.pass == 0
    ensures index < node.table.Length && node.table[index] == n
  {
    assert TableOk(charSet, at, p, at[p]);
    n := new TrieNode(|charSet|);
    node.table[index] := n;
    ghost var q := p + [c];
    ghost var at' := at[q := n];
    forall r | r in at' ensures TableOk(charSet, at', r, at'[r]) {
      if r != q {
        assert old(TableOk(charSet, at, r, at[r]));
        forall i | 0 <= i < |charSet|
          ensures r + [charSet[i]] == q <==> r == p && charSet[i] == c
        {
          assert r + [charSet[i]] == q ==> (r + [charSet[i]])[..|r|] == q[..|p|];
        }
      }
    }
  }

  /** Counts one more walk through the node at path `q`. */
  method Bump(ghost at: map<string, TrieNode>, next: TrieNode, ghost q: string, ghost words: seq<string>,
              ghost before: seq<string>, ghost after: seq<string>)
    requires q in at && q != [] && next == at[q] && Separate(at) && CountsOk(at, words, before)
    requires forall p :: Passes(words, after, p) == Passes(words, before, p) + if p == q then 1 else 0
    modifies next`pass
    ensures CountsOk(at, words, after)
  {
    assert NodeOk(words, before, q, at[q]);
    next.pass := next.pass + 1;
    forall p | p in at ensures NodeOk(words, after, p, at[p]) {
      assert old(NodeOk(words, before, p, at[p]));
    }
  }
}
