/** The heap structure of src/Dictionary.java: TrieNode objects that own their children,
    the shared StringBuilder of the enumeration, and the Dictionary that owns the root.

    A TrieNode has only the fields of the Java class. Which abstract value (a Trie.Node)
    a node stands for, and which objects its subtree occupies, are ghost values passed
    alongside it: Represents(t, m, sh) says that the subtree below t is the value m and
    occupies exactly the objects of the footprint sh. Each method is proved to compute
    the corresponding Trie function. */
module Dictionary {
  import opened Options
  import Trie

  /** The objects a subtree occupies, and the footprints of its children's subtrees in
      the order of the children. */
  datatype Shape = Shape(nodes: set<object>, kids: seq<Shape>)

  /** The subtree below `t` is `m`: same flag, character and keys, in the same order, each
      child represents the corresponding child value, and distinct children occupy
      disjoint parts of the footprint, which `t` itself is outside of. */
  ghost predicate Represents(t: TrieNode, m: Trie.Node, sh: Shape)
    reads sh.nodes
    decreases m
  {
    t in sh.nodes &&
    t.isPossibleEnd == m.end && t.currChar == m.ch &&
    |t.suffix| == |m.kids| && |sh.kids| == |m.kids| &&
    (forall i :: 0 <= i < |t.suffix| ==> t.suffix[i].0 == m.kids[i].0) &&
    (forall i :: 0 <= i < |t.suffix| ==>
      sh.kids[i].nodes <= sh.nodes && t !in sh.kids[i].nodes &&
      Represents(t.suffix[i].1, m.kids[i].1, sh.kids[i])) &&
    (forall i, j {:trigger Apart(sh, i, j)} :: 0 <= i < j < |sh.kids| ==> Apart(sh, i, j))
  }

  /** The footprints of children i and j are disjoint. */
  ghost predicate Apart(sh: Shape, i: int, j: int)
    requires 0 <= i < |sh.kids| && 0 <= j < |sh.kids|
  {
    sh.kids[i].nodes !! sh.kids[j].nodes
  }

  /** get(c) on a node that represents `m` finds a child exactly when `m` has one under
      `c`, and that child represents it. */
  lemma GetChild(t: TrieNode, c: char, m: Trie.Node, sh: Shape) returns (mc: Trie.Node, shc: Shape)
    requires Represents(t, m, sh)
    ensures t.Get(c) == null <==> Trie.Lookup(m.kids, c).None?
    ensures t.Get(c) != null ==>
      Trie.Lookup(m.kids, c).Some? && mc == m.kids[Trie.Lookup(m.kids, c).value].1 &&
      Represents(t.Get(c), mc, shc)
  {
    Trie.LookupSameKeys(t.suffix, m.kids, c);
    mc, shc := m, sh;
    if t.Get(c) != null {
      var k := Trie.Lookup(m.kids, c).value;
      mc, shc := m.kids[k].1, sh.kids[k];
    }
  }

  /** A subtree none of whose objects changed represents what it did. */
  twostate lemma {:induction false} Untouched(new t: TrieNode, new m: Trie.Node, sh: Shape)
    requires old(allocated(t))
    requires old(Represents(t, m, sh))
    requires unchanged(sh.nodes)
    ensures Represents(t, m, sh)
  {
  }

  /** Changing only the flag and the character of `t` keeps what its children represent. */
  twostate lemma {:induction false} FieldsChanged(new t: TrieNode, new m: Trie.Node, sh: Shape)
    requires old(allocated(t))
    requires old(Represents(t, m, sh))
    requires unchanged(sh.nodes - {t}) && unchanged(t`suffix)
    ensures Represents(t, m.(end := t.isPossibleEnd, ch := t.currChar), sh)
  {
    forall i | 0 <= i < |t.suffix| ensures Represents(t.suffix[i].1, m.kids[i].1, sh.kids[i]) {
      assert old(Represents(t.suffix[i].1, m.kids[i].1, sh.kids[i]));
    }
  }

  /** Appending the entry (c, n) to t's children, with n's subtree apart from t's,
      appends n's value and footprint. */
  twostate lemma {:induction false} Appended(new t: TrieNode, new m: Trie.Node, sh: Shape, new c: char,
                                            new n: TrieNode, new mn: Trie.Node, new shn: Shape)
    requires old(allocated(t)) && old(allocated(n)) && old(allocated(shn))
    requires old(Represents(t, m, sh)) && old(Represents(n, mn, shn))
    requires sh.nodes !! shn.nodes
    requires unchanged(sh.nodes - {t}) && unchanged(shn.nodes)
    requires t.suffix == old(t.suffix) + [(c, n)]
    requires unchanged(t`isPossibleEnd, t`currChar)
    ensures Represents(t, m.(kids := m.kids + [(c, mn)]), Shape(sh.nodes + shn.nodes, sh.kids + [shn]))
  {
    var sh' := Shape(sh.nodes + shn.nodes, sh.kids + [shn]);
    var m' := m.(kids := m.kids + [(c, mn)]);
    forall i | 0 <= i < |t.suffix|
      ensures sh'.kids[i].nodes <= sh'.nodes && t !in sh'.kids[i].nodes
      ensures Represents(t.suffix[i].1, m'.kids[i].1, sh'.kids[i])
    {
      if i < |m.kids| {
        assert t.suffix[i] == old(t.suffix[i]) && sh'.kids[i] == sh.kids[i] && m'.kids[i] == m.kids[i];
        assert old(Represents(t.suffix[i].1, m.kids[i].1, sh.kids[i]));
      } else {
        assert t.suffix[i] == (c, n) && sh'.kids[i] == shn && m'.kids[i] == (c, mn);
      }
    }
    forall i, j | 0 <= i < j < |sh'.kids| ensures Apart(sh', i, j) {
      assert sh'.kids[i] == sh.kids[i];
      if j < |sh.kids| {
        assert Apart(sh, i, j);
      }
    }
  }

  /** Replacing the subtree below t's k-th child by one that represents `mk` in a
      footprint apart from the rest of t's subtree replaces the k-th child value and
      footprint. */
  twostate lemma {:induction false} ChildReplaced(new t: TrieNode, new m: Trie.Node, sh: Shape, new k: nat,
                                                 new mk: Trie.Node, new shk: Shape)
    requires old(allocated(t))
    requires old(Represents(t, m, sh)) && k < |m.kids|
    requires unchanged(sh.nodes - sh.kids[k].nodes)
    requires Represents(old(t.suffix)[k].1, mk, shk)
    requires (sh.nodes - sh.kids[k].nodes) !! shk.nodes
    ensures Represents(t, m.(kids := m.kids[k := (m.kids[k].0, mk)]),
                       Shape(sh.nodes - sh.kids[k].nodes + shk.nodes, sh.kids[k := shk]))
  {
    var sh' := Shape(sh.nodes - sh.kids[k].nodes + shk.nodes, sh.kids[k := shk]);
    var m' := m.(kids := m.kids[k := (m.kids[k].0, mk)]);
    assert t.suffix == old(t.suffix);
    forall i | 0 <= i < |t.suffix|
      ensures sh'.kids[i].nodes <= sh'.nodes && t !in sh'.kids[i].nodes
      ensures Represents(t.suffix[i].1, m'.kids[i].1, sh'.kids[i])
    {
      if i < k {
        assert Apart(sh, i, k);
        assert old(Represents(t.suffix[i].1, m.kids[i].1, sh.kids[i]));
      } else if k < i {
        assert Apart(sh, k, i);
        assert old(Represents(t.suffix[i].1, m.kids[i].1, sh.kids[i]));
      }
    }
    forall i, j | 0 <= i < j < |sh'.kids| ensures Apart(sh', i, j) {
      assert Apart(sh, i, j);
    }
  }

  /** The insertion step of addToDictionary at `t` for the last character w[i]: the
      child `n` now stored under that character was flagged, and nothing else changed. */
  twostate lemma {:induction false} EndMarked(new t: TrieNode, new m: Trie.Node, sh: Shape,
                                             new w: string, new i: nat, new n: TrieNode)
    requires old(allocated(t)) && old(allocated(n)) && i + 1 == |w|
    requires old(Represents(t, Trie.PutIfAbsent(m, Trie.ToLower(w[i]), Trie.Empty()).0, sh))
    requires var k := Trie.PutIfAbsent(m, Trie.ToLower(w[i]), Trie.Empty()).1;
      k < |old(t.suffix)| && n == old(t.suffix)[k].1
    requires unchanged(sh.nodes - {n}) && unchanged(n`suffix, n`currChar) && n.isPossibleEnd
    ensures Represents(t, Trie.Insert(m, w[i..]), sh)
  {
    var (m1, k) := Trie.PutIfAbsent(m, Trie.ToLower(w[i]), Trie.Empty());
    var child, shk := m1.kids[k].1, sh.kids[k];
    FieldsChanged(n, child, shk);
    ChildReplaced(t, m1, sh, k, child.(end := true), shk);
    assert sh.kids[k := shk] == sh.kids;
    assert sh.nodes - shk.nodes + shk.nodes == sh.nodes;
    var rest := w[i..];
    assert rest[0] == w[i] && |rest| == 1;
    Trie.InsertStep(m, rest, child.(end := true));
  }

  /** The insertion step of addToDictionary at `t` for a character w[i] that is not the
      last: the child `n` stored under that character now represents `mk`, the insertion
      of the rest of the word into its old value, in a footprint `shk` apart from the
      rest of t's subtree. */
  twostate lemma {:induction false} Descended(new t: TrieNode, new m: Trie.Node, sh: Shape, new w: string, new i: nat,
                                             new n: TrieNode, new mk: Trie.Node, new shk: Shape)
    requires old(allocated(t)) && old(allocated(n)) && i + 1 < |w|
    requires old(Represents(t, Trie.PutIfAbsent(m, Trie.ToLower(w[i]), Trie.Empty()).0, sh))
    requires var (m1, k) := Trie.PutIfAbsent(m, Trie.ToLower(w[i]), Trie.Empty());
      k < |old(t.suffix)| && k < |sh.kids| &&
      n == old(t.suffix)[k].1 && mk == Trie.Insert(m1.kids[k].1, w[i + 1..]) &&
      unchanged(sh.nodes - sh.kids[k].nodes) &&
      (sh.nodes - sh.kids[k].nodes) !! shk.nodes
    requires Represents(n, mk, shk)
    ensures var k := Trie.PutIfAbsent(m, Trie.ToLower(w[i]), Trie.Empty()).1;
      k < |sh.kids| &&
      Represents(t, Trie.Insert(m, w[i..]), Shape(sh.nodes - sh.kids[k].nodes + shk.nodes, sh.kids[k := shk]))
  {
    var (m1, k) := Trie.PutIfAbsent(m, Trie.ToLower(w[i]), Trie.Empty());
    ChildReplaced(t, m1, sh, k, mk, shk);
    var rest := w[i..];
    assert rest[0] == w[i] && rest[1..] == w[i + 1..];
    Trie.InsertStep(m, rest, mk);
  }

  class TrieNode {
    /** The LinkedHashMap of children as its entry list, in insertion order. */
    var suffix: seq<(char, TrieNode)>
    var isPossibleEnd: bool
    var currChar: char

    /** A node without children that ends no word. Java leaves currChar at its default,
        the character 0. */
    constructor ()
      ensures Represents(this, Trie.Empty(), Shape({this}, []))
    {
      suffix := [];
      isPossibleEnd := false;
      currChar := '\0';
    }

    /** LinkedHashMap.get: the child stored under `c`, or null. */
    function Get(c: char): (r: TrieNode?)
      reads this
      ensures r == null <==> forall i :: 0 <= i < |suffix| ==> suffix[i].0 != c
      ensures r != null ==>
        exists i :: 0 <= i < |suffix| && suffix[i] == (c, r) && forall j :: 0 <= j < i ==> suffix[j].0 != c
    {
      match Trie.Lookup(suffix, c)
      case None => null
      case Some(k) => suffix[k].1
    }

    /** add(c, next): writes `c` into next's character, stores `next` under `c` unless a
        child already has that key, and returns the child now stored under `c`. */
    method Add(c: char, next: TrieNode, ghost m: Trie.Node, ghost sh: Shape,
               ghost mn: Trie.Node, ghost shn: Shape) returns (r: TrieNode, ghost sh': Shape)
      requires Represents(this, m, sh) && Represents(next, mn, shn) && sh.nodes !! shn.nodes
      modifies this, next
      ensures Represents(this, Trie.PutIfAbsent(m, c, mn).0, sh')
      ensures r == suffix[Trie.PutIfAbsent(m, c, mn).1].1
      ensures next.currChar == c
      ensures sh'.nodes <= sh.nodes + shn.nodes
      ensures Trie.Lookup(m.kids, c).Some? ==> unchanged(this`suffix) && r == old(Get(c))
      ensures Trie.Lookup(m.kids, c).None? ==> r == next
    {
      Trie.LookupSameKeys(suffix, m.kids, c);
      next.currChar := c;
      FieldsChanged(next, mn, shn);
      assert Represents(this, m, sh);
      label mid:
      if Get(c) == null {
        Trie.LookupAppendNew(suffix, (c, next));
        suffix := suffix + [(c, next)];
        Appended@mid(this, m, sh, c, next, mn.(ch := c), shn);
        sh' := Shape(sh.nodes + shn.nodes, sh.kids + [shn]);
      } else {
        sh' := sh;
      }
      r := Get(c);
    }
  }

  /** The part of java.lang.StringBuilder that the enumeration uses. */
  class StringBuilder {
    var content: string

    constructor ()
      ensures content == []
    {
      content := [];
    }

    function Length(): nat
      reads this
    {
      |content|
    }

    method Append(c: char)
      modifies this
      ensures content == old(content) + [c]
    {
      content := content + [c];
    }

    /** replace(start, end, str): `end` past the length stands for the length. */
    method Replace(start: nat, end: nat, str: string)
      requires start <= |content| && start <= end
      modifies this
      ensures var e := if end <= |old(content)| then end else |old(content)|;
        content == old(content)[..start] + str + old(content)[e..]
    {
      var e := if end <= |content| then end else |content|;
      content := content[..start] + str + content[e..];
    }
  }

  class Dictionary {
    var root: TrieNode
    /** The trie the root stands for, and the objects it occupies. */
    ghost var model: Trie.Node
    ghost var shape: Shape

    /** The root represents the trie, which is well formed, and the root ends no word. */
    ghost predicate Valid()
      reads this, shape.nodes
    {
      this !in shape.nodes && Represents(root, model, shape) && Trie.Wf(model) && !model.end
    }

    /** Dictionary(): a fresh root filled from the word list, given here as its lines. */
    constructor (wordList: seq<string>)
      ensures Valid()
      ensures model == Trie.Load(Trie.Empty(), wordList)
      ensures fresh(shape.nodes)
    {
      root := new TrieNode();
      model := Trie.Empty();
      shape := Shape({root}, []);
      new;
      FillDictionary(wordList);
    }

    /** fillDictionary: inserts every line of length at least 1, in order. */
    method FillDictionary(lines: seq<string>)
      requires Valid()
      modifies this, shape.nodes
      ensures Valid()
      ensures model == Trie.Load(old(model), lines)
      ensures forall o :: o in shape.nodes ==> o in old(shape.nodes) || fresh(o)
    {
      ghost var sh := FillLines(lines, model, shape);
      Trie.LoadWf(model, lines);
      model, shape := Trie.Load(model, lines), sh;
    }

    /** The loop of fillDictionary, reading the lines in order. */
    method FillLines(lines: seq<string>, ghost m: Trie.Node, ghost sh: Shape)
      returns (ghost sh': Shape)
      requires this !in sh.nodes && Represents(root, m, sh)
      modifies sh.nodes
      ensures this !in sh'.nodes && Represents(root, Trie.Load(m, lines), sh')
      ensures forall o :: o in sh'.nodes ==> o in sh.nodes || fresh(o)
    {
      sh' := sh;
      var i := 0;
      while i < |lines|
        invariant 0 <= i <= |lines|
        invariant this !in sh'.nodes && Represents(root, Trie.Load(m, lines[..i]), sh')
        invariant forall o :: o in sh'.nodes ==> o in sh.nodes || fresh(o)
      {
        var currentWord := lines[i];
        Trie.LoadStep(m, lines, i);
        var sh1 := FillLine(currentWord, Trie.Load(m, lines[..i]), sh');
        sh' := sh1;
        i := i + 1;
      }
      assert lines[..i] == lines;
    }

    /** The body of fillDictionary's loop: a line of length at least 1 is added from the
        root, an empty one changes nothing. */
    method FillLine(currentWord: string, ghost m: Trie.Node, ghost sh: Shape)
      returns (ghost sh': Shape)
      requires this !in sh.nodes && Represents(root, m, sh)
      modifies sh.nodes
      ensures this !in sh'.nodes
      ensures Represents(root, if |currentWord| >= 1 then Trie.Insert(m, currentWord) else m, sh')
      ensures forall o :: o in sh'.nodes ==> o in sh.nodes || fresh(o)
    {
      if |currentWord| >= 1 {
        sh' := AddToDictionary(currentWord, 0, root, m, sh, {this});
        assert currentWord[0..] == currentWord;
      } else {
        sh' := sh;
      }
    }

    /** The first step of addToDictionary, `currentLevel.add(currentChar, new TrieNode())`:
        returns the child stored under `currentChar` afterwards, which is the new node
        when there was none. */
    method AddToLevel(currentChar: char, currentLevel: TrieNode, ghost m: Trie.Node, ghost sh: Shape)
      returns (insertedVal: TrieNode, ghost sh1: Shape)
      requires Represents(currentLevel, m, sh)
      modifies sh.nodes
      ensures var (m1, k) := Trie.PutIfAbsent(m, currentChar, Trie.Empty());
        Represents(currentLevel, m1, sh1) && k < |sh1.kids| && k < |currentLevel.suffix| &&
        insertedVal == currentLevel.suffix[k].1 &&
        Represents(insertedVal, m1.kids[k].1, sh1.kids[k]) && sh1.kids[k].nodes <= sh1.nodes
      ensures forall o :: o in sh1.nodes ==> o in sh.nodes || fresh(o)
    {
      var next := new TrieNode();
      insertedVal, sh1 := currentLevel.Add(currentChar, next, m, sh, Trie.Empty(), Shape({next}, []));
    }

    /** addToDictionary(w, index, level): adds the lower-cased characters of w from
        `index` on below `level`, reusing existing children, and flags the last one.
        `m` and `sh` are the value and footprint of the subtree below `level`; the
        footprint returned is the one afterwards, and it stays apart from `others`; the
        nodes it gains are all new. */
    method AddToDictionary(currentWord: string, index: nat, currentLevel: TrieNode,
                           ghost m: Trie.Node, ghost sh: Shape, ghost others: set<object>)
      returns (ghost sh': Shape)
      requires index < |currentWord|
      requires Represents(currentLevel, m, sh) && sh.nodes !! others
      modifies sh.nodes
      ensures Represents(currentLevel, Trie.Insert(m, currentWord[index..]), sh')
      ensures sh'.nodes !! others
      ensures forall o :: o in sh'.nodes ==> o in sh.nodes || fresh(o)
      decreases |currentWord| - index
    {
      var currentChar := Trie.ToLower(currentWord[index]);
      var insertedVal, sh1 := AddToLevel(currentChar, currentLevel, m, sh);
      ghost var (m1, k) := Trie.PutIfAbsent(m, currentChar, Trie.Empty());
      ghost var child := m1.kids[k].1;
      ghost var shk := sh1.kids[k];
      label linked:
      if index == |currentWord| - 1 {
        insertedVal.isPossibleEnd := true;
        EndMarked@linked(currentLevel, m, sh1, currentWord, index, insertedVal);
        sh' := sh1;
      } else {
        var shk' := AddToDictionary(currentWord, index + 1, insertedVal, child, shk,
                                           others + (sh1.nodes - shk.nodes));
        Descended@linked(currentLevel, m, sh1, currentWord, index,
                        insertedVal, Trie.Insert(child, currentWord[index + 1..]), shk');
        sh' := Shape(sh1.nodes - shk.nodes + shk'.nodes, sh1.kids[k := shk']);
      }
    }

    /** printDictionary: the lines printed, starting from the root's children with an
        empty buffer. */
    method PrintDictionary() returns (printed: seq<string>)
      requires Valid()
      ensures printed == Trie.Words(model)
    {
      var wordToPrint := new StringBuilder();
      printed := PrintDictionaryHelper(root.suffix, wordToPrint, root, model, shape);
    }

    /** printDictionaryHelper(children of `level`, buffer): for each child in order,
        appends its character, prints the buffer if the child ends a word and recurses;
        at the end removes one character if there is one, which undoes the append made
        by the caller. `m` and `sh` are the value and footprint of the subtree below
        `level`. */
    method PrintDictionaryHelper(currLevelList: seq<(char, TrieNode)>, wordToPrint: StringBuilder,
                                 ghost level: TrieNode, ghost m: Trie.Node, ghost sh: Shape)
      returns (printed: seq<string>)
      requires Represents(level, m, sh) && currLevelList == level.suffix && wordToPrint !in sh.nodes
      modifies wordToPrint
      ensures printed == Trie.Enumerate(m, |m.kids|, old(wordToPrint.content))
      ensures old(wordToPrint.content) == [] ==> wordToPrint.content == []
      ensures old(wordToPrint.content) != [] ==>
        wordToPrint.content == old(wordToPrint.content)[..|old(wordToPrint.content)| - 1]
      decreases m, 0
    {
      ghost var before := wordToPrint.content;
      printed := [];
      for i := 0 to |currLevelList|
        invariant wordToPrint.content == before
        invariant printed == Trie.Enumerate(m, i, before)
      {
        Untouched(level, m, sh);
        var below := PrintEntry(currLevelList[i].1, wordToPrint, m.kids[i].1, sh.kids[i]);
        printed := printed + below;
      }
      if wordToPrint.Length() > 0 {
        wordToPrint.Replace(wordToPrint.Length() - 1, wordToPrint.Length(), "");
      }
    }

    /** The body of printDictionaryHelper's loop for one child: appends its character,
        prints the buffer if it ends a word and enumerates its own children, which leaves
        the buffer as it found it. `m` and `sh` are the value and footprint of the subtree
        below the child. */
    method PrintEntry(currPosition: TrieNode, wordToPrint: StringBuilder, ghost m: Trie.Node, ghost sh: Shape)
      returns (printed: seq<string>)
      requires Represents(currPosition, m, sh) && wordToPrint !in sh.nodes
      modifies wordToPrint
      ensures var p := old(wordToPrint.content) + [m.ch];
        printed == (if m.end then [p] else []) + Trie.Enumerate(m, |m.kids|, p)
      ensures wordToPrint.content == old(wordToPrint.content)
      decreases m, 1
    {
      wordToPrint.Append(currPosition.currChar);
      printed := [];
      if currPosition.isPossibleEnd {
        printed := [wordToPrint.content];
      }
      var below := PrintDictionaryHelper(currPosition.suffix, wordToPrint, currPosition, m, sh);
      printed := printed + below;
    }

    /** The search the tests use: false for the empty word; otherwise walks the
        lower-cased characters from the root, gives up at the first missing child and
        answers the end flag of the node reached. */
    method SearchDictionary(word: string) returns (found: bool)
      requires Valid()
      ensures found == Trie.Search(model, word)
    {
      if |word| == 0 {
        return false;
      }
      ghost var folded := Trie.Fold(word);
      var node: TrieNode := root;
      ghost var nm, nsh := model, shape;
      var i := 0;
      while i < |word|
        invariant 0 <= i <= |word|
        invariant Represents(node, nm, nsh)
        invariant Trie.Walk(model, folded) == Trie.Walk(nm, folded[i..])
        decreases |word| - i
      {
        var next := node.Get(Trie.ToLower(word[i]));
        ghost var nm', nsh' := GetChild(node, Trie.ToLower(word[i]), nm, nsh);
        assert folded[i..] == [folded[i]] + folded[i + 1..];
        if next == null {
          return false;
        }
        node, nm, nsh := next, nm', nsh';
        i := i + 1;
      }
      found := node.isPossibleEnd;
    }
  }
}
