/** The abstract value of the trie dictionary of src/Dictionary.java.

    A node is its end-of-word flag (isPossibleEnd), its own character (currChar) and its
    children in insertion order, the entry list of the LinkedHashMap it owns. The heap
    classes of module Dictionary are proved to compute exactly the functions below. */
module Trie {
  import opened Options

  datatype Node = Node(end: bool, ch: char, kids: seq<(char, Node)>)

  /** A freshly constructed TrieNode: no children, not an end, and Java's default char. */
  function Empty(): Node {
    Node(false, '\0', [])
  }

  // ---------------------------------------------------------------------------
  // Case folding (ASCII letters only)

  function ToLower(c: char): (r: char)
    ensures 'A' <= c <= 'Z' ==> r as int == c as int + 32
    ensures !('A' <= c <= 'Z') ==> r == c
    ensures !('A' <= r <= 'Z')
  {
    if 'A' <= c <= 'Z' then (c as int + 32) as char else c
  }

  function Fold(s: string): (r: string)
    ensures |r| == |s|
    ensures forall i :: 0 <= i < |s| ==> r[i] == ToLower(s[i])
  {
    if s == [] then [] else [ToLower(s[0])] + Fold(s[1..])
  }

  lemma {:induction false} FoldIdempotent(s: string)
    ensures Fold(Fold(s)) == Fold(s)
  {
    var f := Fold(s);
    assert forall i :: 0 <= i < |f| ==> Fold(f)[i] == f[i];
  }

  // ---------------------------------------------------------------------------
  // One level: LinkedHashMap.get and putIfAbsent over the ordered entry list

  /** The position of key `c` among `kids`, the first one with that key. */
  function Lookup<V>(kids: seq<(char, V)>, c: char): (r: Option<nat>)
    ensures r.Some? ==> r.value < |kids| && kids[r.value].0 == c
    ensures r.Some? ==> forall j :: 0 <= j < r.value ==> kids[j].0 != c
    ensures r.None? <==> forall j :: 0 <= j < |kids| ==> kids[j].0 != c
  {
    if kids == [] then None
    else if kids[0].0 == c then Some(0)
    else match Lookup(kids[1..], c)
      case None => None
      case Some(k) => Some(k + 1)
  }

  /** TrieNode.add(c, next): sets next's character to `c`, stores it under `c` if no
      child has that key yet, and returns the node then stored under `c` together with
      its position. */
  function PutIfAbsent(n: Node, c: char, next: Node): (r: (Node, nat))
    ensures r.0.end == n.end && r.0.ch == n.ch
    ensures r.1 < |r.0.kids| && r.0.kids[r.1].0 == c
    ensures Lookup(r.0.kids, c) == Some(r.1)
    // present: the entry list and the returned child are the existing ones
    ensures Lookup(n.kids, c).Some? ==> r.0 == n && r.1 == Lookup(n.kids, c).value
    // absent: exactly one entry is appended at the end, and it carries `c`
    ensures Lookup(n.kids, c).None? ==>
      r.1 == |n.kids| && r.0.kids[..|n.kids|] == n.kids && |r.0.kids| == |n.kids| + 1 &&
      r.0.kids[r.1].1 == next.(ch := c)
  {
    match Lookup(n.kids, c)
    case Some(k) => (n, k)
    case None => (n.(kids := n.kids + [(c, next.(ch := c))]), |n.kids|)
  }

  // ---------------------------------------------------------------------------
  // Well-formedness: keys unique per node, and every key equal to its child's character

  predicate DistinctKeys(kids: seq<(char, Node)>) {
    forall i, j :: 0 <= i < j < |kids| ==> kids[i].0 != kids[j].0
  }

  predicate Wf(n: Node) {
    DistinctKeys(n.kids) &&
    forall i :: 0 <= i < |n.kids| ==> n.kids[i].1.ch == n.kids[i].0 && Wf(n.kids[i].1)
  }

  lemma PutIfAbsentWf(n: Node, c: char, next: Node)
    requires Wf(n) && Wf(next)
    ensures Wf(PutIfAbsent(n, c, next).0)
  {
    var r := PutIfAbsent(n, c, next).0;
    if Lookup(n.kids, c).None? {
      assert r.kids == n.kids + [(c, next.(ch := c))];
      assert Wf(next.(ch := c));
    }
  }

  /** Replacing an entry by one with the same key does not move any key. */
  lemma {:induction false} LookupSameKeys<V, W>(a: seq<(char, V)>, b: seq<(char, W)>, c: char)
    requires |a| == |b|
    requires forall i :: 0 <= i < |a| ==> a[i].0 == b[i].0
    ensures Lookup(a, c) == Lookup(b, c)
  {
    if a != [] && a[0].0 != c {
      LookupSameKeys(a[1..], b[1..], c);
    }
  }

  /** Appending an entry with another key does not move any key. */
  lemma LookupAppend<V>(a: seq<(char, V)>, e: (char, V), c: char)
    requires e.0 != c
    ensures Lookup(a + [e], c) == Lookup(a, c)
  {
    var b := a + [e];
    match Lookup(a, c)
    case None =>
    case Some(k) =>
      assert b[k] == a[k];
  }

  /** Appending a key that was absent puts it at the end. */
  lemma LookupAppendNew<V>(a: seq<(char, V)>, e: (char, V))
    requires Lookup(a, e.0).None?
    ensures Lookup(a + [e], e.0) == Some(|a|)
  {
    var b := a + [e];
    assert b[|a|].0 == e.0;
    assert forall j :: 0 <= j < |a| ==> b[j] == a[j];
  }

  // ---------------------------------------------------------------------------
  // Paths

  /** The node reached from `n` by following the keys of `s`, if every edge exists. */
  function Walk(n: Node, s: string): Option<Node>
    decreases |s|
  {
    if s == [] then Some(n)
    else match Lookup(n.kids, s[0])
      case None => None
      case Some(k) => Walk(n.kids[k].1, s[1..])
  }

  /** `s` spells a path below `n` whose last node is flagged as a word end. */
  predicate EndAt(n: Node, s: string) {
    Walk(n, s).Some? && Walk(n, s).value.end
  }

  /** No path below a childless node ends in a word except, maybe, the empty one. */
  lemma LeafEndAt(n: Node, s: string)
    requires n.kids == []
    ensures EndAt(n, s) <==> s == [] && n.end
  {
  }

  // ---------------------------------------------------------------------------
  // Insertion (addToDictionary)

  /** addToDictionary(w, 0, n): adds the lower-cased path of `w` below `n` one node per
      character, reusing existing children, and flags the node of the last character. */
  function Insert(n: Node, w: string): (r: Node)
    requires |w| > 0
    ensures r.end == n.end && r.ch == n.ch
    decreases |w|
  {
    var c := ToLower(w[0]);
    var (n1, k) := PutIfAbsent(n, c, Empty());
    var child := n1.kids[k].1;
    var child' := if |w| == 1 then child.(end := true) else Insert(child, w[1..]);
    var r := n1.(kids := n1.kids[k := (c, child')]);
    r
  }

  /** One step of Insert: the child under the first character is replaced. */
  lemma InsertStep(n: Node, w: string, child': Node)
    requires |w| > 0
    requires var (n1, k) := PutIfAbsent(n, ToLower(w[0]), Empty());
      child' == if |w| == 1 then n1.kids[k].1.(end := true) else Insert(n1.kids[k].1, w[1..])
    ensures var (n1, k) := PutIfAbsent(n, ToLower(w[0]), Empty());
      Insert(n, w) == n1.(kids := n1.kids[k := (ToLower(w[0]), child')])
  {
  }

  /** Insertion leaves every path that leaves `n` by another first character alone. */
  lemma InsertOtherEdge(n: Node, w: string, s: string)
    requires |w| > 0 && s != [] && s[0] != ToLower(w[0])
    ensures Walk(Insert(n, w), s) == Walk(n, s)
  {
    var c, d := ToLower(w[0]), s[0];
    var (n1, k) := PutIfAbsent(n, c, Empty());
    var r := Insert(n, w);
    assert r.kids == n1.kids[k := (c, r.kids[k].1)];
    LookupSameKeys(n1.kids, r.kids, d);
    if Lookup(n.kids, c).None? {
      LookupAppend(n.kids, (c, Empty().(ch := c)), d);
    }
    match Lookup(n.kids, d)
    case None =>
    case Some(j) =>
      assert r.kids[j] == n.kids[j];
  }

  /** A path through the first character of `w` continues below the child Insert made
      or reused, and meant, below `n`, what its tail means below the child before. */
  lemma InsertSameEdge(n: Node, w: string, t: string)
    requires |w| > 0
    ensures var c := ToLower(w[0]);
            var (n1, k) := PutIfAbsent(n, c, Empty());
            Walk(Insert(n, w), [c] + t) == Walk(Insert(n, w).kids[k].1, t) &&
            (EndAt(n, [c] + t) <==> EndAt(n1.kids[k].1, t))
  {
    var c := ToLower(w[0]);
    var (n1, k) := PutIfAbsent(n, c, Empty());
    var r := Insert(n, w);
    assert r.kids == n1.kids[k := (c, r.kids[k].1)];
    LookupSameKeys(n1.kids, r.kids, c);
    assert ([c] + t)[1..] == t;
    if Lookup(n.kids, c).None? {
      LeafEndAt(n1.kids[k].1, t);
    }
  }

  /** After inserting `w`, exactly the paths that ended in a word before, and the
      lower-cased `w`, end in a word. */
  lemma {:induction false} InsertEndAt(n: Node, w: string, s: string)
    requires |w| > 0
    ensures EndAt(Insert(n, w), s) <==> EndAt(n, s) || s == Fold(w)
    decreases |w|
  {
    var c := ToLower(w[0]);
    assert Fold(w) == [c] + Fold(w[1..]);
    if s == [] {
    } else if s[0] != c {
      InsertOtherEdge(n, w, s);
    } else {
      var (n1, k) := PutIfAbsent(n, c, Empty());
      var child := n1.kids[k].1;
      var t := s[1..];
      assert s == [c] + t;
      InsertSameEdge(n, w, t);
      if |w| == 1 {
        assert Insert(n, w).kids[k].1 == child.(end := true);
        assert Walk(child.(end := true), t) == if t == [] then Some(child.(end := true)) else Walk(child, t);
      } else {
        assert Insert(n, w).kids[k].1 == Insert(child, w[1..]);
        InsertEndAt(child, w[1..], t);
      }
    }
  }

  /** Insertion keeps every key unique per node and equal to its child's character. */
  lemma {:induction false} InsertWf(n: Node, w: string)
    requires |w| > 0 && Wf(n)
    ensures Wf(Insert(n, w))
    decreases |w|
  {
    var c := ToLower(w[0]);
    var (n1, k) := PutIfAbsent(n, c, Empty());
    PutIfAbsentWf(n, c, Empty());
    var child := n1.kids[k].1;
    var r := Insert(n, w);
    if |w| > 1 {
      InsertWf(child, w[1..]);
    }
    assert r.kids == n1.kids[k := (c, r.kids[k].1)];
    assert Wf(r.kids[k].1) && r.kids[k].1.ch == c;
    assert forall i :: 0 <= i < |r.kids| && i != k ==> r.kids[i] == n1.kids[i];
  }

  /** Inserting a word, or any case variant of it, a second time changes nothing. */
  lemma {:induction false} InsertIdempotent(n: Node, w: string, v: string)
    requires |w| > 0 && Fold(v) == Fold(w)
    ensures Insert(Insert(n, w), v) == Insert(n, w)
    decreases |w|
  {
    var c := ToLower(w[0]);
    assert Fold(w) == [c] + Fold(w[1..]) && Fold(v) == [ToLower(v[0])] + Fold(v[1..]);
    var (n1, k) := PutIfAbsent(n, c, Empty());
    var r := Insert(n, w);
    assert r.kids == n1.kids[k := (c, r.kids[k].1)];
    LookupSameKeys(n1.kids, r.kids, c);
    assert PutIfAbsent(r, c, Empty()) == (r, k);
    if |w| > 1 {
      InsertIdempotent(n1.kids[k].1, w[1..], v[1..]);
    }
  }

  // ---------------------------------------------------------------------------
  // Monotonicity: no edge is removed, no entry moves, no end flag is cleared

  predicate Extends(a: Node, b: Node) {
    (a.end ==> b.end) && a.ch == b.ch && |a.kids| <= |b.kids| &&
    forall i :: 0 <= i < |a.kids| ==> a.kids[i].0 == b.kids[i].0 && Extends(a.kids[i].1, b.kids[i].1)
  }

  lemma {:induction false} ExtendsRefl(a: Node)
    ensures Extends(a, a)
  {
    forall i | 0 <= i < |a.kids| ensures Extends(a.kids[i].1, a.kids[i].1) {
      ExtendsRefl(a.kids[i].1);
    }
  }

  lemma {:induction false} ExtendsTrans(a: Node, b: Node, c: Node)
    requires Extends(a, b) && Extends(b, c)
    ensures Extends(a, c)
  {
    forall i | 0 <= i < |a.kids| ensures Extends(a.kids[i].1, c.kids[i].1) {
      ExtendsTrans(a.kids[i].1, b.kids[i].1, c.kids[i].1);
    }
  }

  /** Insertion only adds: existing entries keep their keys, positions and flags. */
  lemma {:induction false} InsertExtends(n: Node, w: string)
    requires |w| > 0
    ensures Extends(n, Insert(n, w))
    decreases |w|
  {
    var c := ToLower(w[0]);
    var (n1, k) := PutIfAbsent(n, c, Empty());
    var child := n1.kids[k].1;
    var r := Insert(n, w);
    assert r.kids == n1.kids[k := (c, r.kids[k].1)];
    forall i | 0 <= i < |n.kids| ensures n.kids[i].0 == r.kids[i].0 && Extends(n.kids[i].1, r.kids[i].1) {
      assert n.kids[i] == n1.kids[i];
      if i == k {
        if |w| > 1 {
          InsertExtends(child, w[1..]);
        } else {
          ExtendsRefl(child);
        }
      } else {
        ExtendsRefl(n.kids[i].1);
      }
    }
  }

  /** A word stored in `a` is still stored in any extension of `a`. */
  lemma {:induction false} ExtendsEndAt(a: Node, b: Node, s: string)
    requires Extends(a, b) && EndAt(a, s)
    ensures EndAt(b, s)
    decreases |s|
  {
    if s != [] {
      var j := Lookup(a.kids, s[0]).value;
      assert forall i :: 0 <= i <= j ==> a.kids[i].0 == b.kids[i].0;
      assert Lookup(b.kids, s[0]) == Some(j);
      ExtendsEndAt(a.kids[j].1, b.kids[j].1, s[1..]);
    }
  }

  // ---------------------------------------------------------------------------
  // Search (the lookup the callers and the tests use)

  /** The empty word is never stored; otherwise the lower-cased query must spell a path
      from the root whose last node is flagged as a word end. */
  predicate Search(root: Node, w: string) {
    |w| > 0 && EndAt(root, Fold(w))
  }

  /** Search folds case: every case variant of a query gets the same answer. */
  lemma SearchFoldsCase(root: Node, v: string, w: string)
    requires Fold(v) == Fold(w)
    ensures Search(root, v) == Search(root, w)
  {
    assert |v| == |Fold(v)|;
  }

  /** After inserting `w`, search answers true for the old words and for every case
      variant of `w`, and for nothing else. */
  lemma SearchAfterInsert(n: Node, w: string, v: string)
    requires |w| > 0
    ensures Search(Insert(n, w), v) <==> Search(n, v) || Fold(v) == Fold(w)
  {
    InsertEndAt(n, w, Fold(v));
  }

  // ---------------------------------------------------------------------------
  // Bulk load (fillDictionary)

  /** fillDictionary: each line of length at least 1, in order, is inserted below `n`;
      empty lines are skipped. */
  function Load(n: Node, lines: seq<string>): (r: Node)
    ensures r.end == n.end && r.ch == n.ch
    decreases |lines|
  {
    if lines == [] then n
    else
      var m := Load(n, lines[..|lines| - 1]);
      var w := lines[|lines| - 1];
      if |w| >= 1 then Insert(m, w) else m
  }

  /** One more line of the word list is one more insertion, or none for an empty line. */
  lemma LoadStep(n: Node, lines: seq<string>, i: nat)
    requires i < |lines|
    ensures Load(n, lines[..i + 1]) ==
      if |lines[i]| >= 1 then Insert(Load(n, lines[..i]), lines[i]) else Load(n, lines[..i])
  {
    assert lines[..i + 1][..i] == lines[..i];
  }

  /** A loaded trie stores exactly what `n` stored and the lower-cased non-empty lines. */
  lemma {:induction false} LoadEndAt(n: Node, lines: seq<string>, s: string)
    ensures EndAt(Load(n, lines), s) <==>
      EndAt(n, s) || exists i :: 0 <= i < |lines| && |lines[i]| > 0 && s == Fold(lines[i])
    decreases |lines|
  {
    if lines != [] {
      var init := lines[..|lines| - 1];
      var w := lines[|lines| - 1];
      LoadEndAt(n, init, s);
      if |w| >= 1 {
        InsertEndAt(Load(n, init), w, s);
      }
      if exists i :: 0 <= i < |lines| && |lines[i]| > 0 && s == Fold(lines[i]) {
        var i :| 0 <= i < |lines| && |lines[i]| > 0 && s == Fold(lines[i]);
        if i < |init| {
          assert init[i] == lines[i];
        }
      }
      assert forall i :: 0 <= i < |init| ==> init[i] == lines[i];
    }
  }

  lemma {:induction false} LoadWf(n: Node, lines: seq<string>)
    requires Wf(n)
    ensures Wf(Load(n, lines))
    decreases |lines|
  {
    if lines != [] {
      LoadWf(n, lines[..|lines| - 1]);
      if |lines[|lines| - 1]| >= 1 {
        InsertWf(Load(n, lines[..|lines| - 1]), lines[|lines| - 1]);
      }
    }
  }

  lemma {:induction false} LoadExtends(n: Node, lines: seq<string>)
    ensures Extends(n, Load(n, lines))
    decreases |lines|
  {
    if lines == [] {
      ExtendsRefl(n);
    } else {
      var m := Load(n, lines[..|lines| - 1]);
      LoadExtends(n, lines[..|lines| - 1]);
      if |lines[|lines| - 1]| >= 1 {
        InsertExtends(m, lines[|lines| - 1]);
        ExtendsTrans(n, m, Load(n, lines));
      }
    }
  }

  /** The dictionary built from a word list answers true exactly for the case variants of
      its non-empty lines, whatever case they were written in. */
  lemma SearchLoaded(lines: seq<string>, v: string)
    ensures Search(Load(Empty(), lines), v) <==>
      exists i :: 0 <= i < |lines| && |lines[i]| > 0 && Fold(v) == Fold(lines[i])
  {
    LoadEndAt(Empty(), lines, Fold(v));
    LeafEndAt(Empty(), Fold(v));
    if exists i :: 0 <= i < |lines| && |lines[i]| > 0 && Fold(v) == Fold(lines[i]) {
      var i :| 0 <= i < |lines| && |lines[i]| > 0 && Fold(v) == Fold(lines[i]);
      assert |v| == |Fold(lines[i])|;
    }
  }

  /** Every line of the word list is found again, queried exactly as it was written. */
  lemma LoadedLineFound(lines: seq<string>, i: nat)
    requires i < |lines| && |lines[i]| > 0
    ensures Search(Load(Empty(), lines), lines[i])
  {
    SearchLoaded(lines, lines[i]);
  }

  // ---------------------------------------------------------------------------
  // Enumeration (printDictionaryHelper)

  /** The lines printed for the first `k` children of `n` when the buffer holds `prefix`:
      for each child in insertion order, its character is appended, the buffer is printed
      if the child ends a word, and the child's own children follow (depth-first preorder). */
  function Enumerate(n: Node, k: nat, prefix: string): seq<string>
    requires k <= |n.kids|
    decreases n, k
  {
    if k == 0 then []
    else
      var child := n.kids[k - 1].1;
      var p := prefix + [child.ch];
      Enumerate(n, k - 1, prefix) + (if child.end then [p] else []) + Enumerate(child, |child.kids|, p)
  }

  /** printDictionary: everything below the root, which itself contributes no character. */
  function Words(root: Node): seq<string> {
    Enumerate(root, |root.kids|, [])
  }

  predicate NoDuplicates(s: seq<string>) {
    forall i, j :: 0 <= i < j < |s| ==> s[i] != s[j]
  }

  /** Every printed line extends the buffer by a child's character among the first `k`. */
  lemma {:induction false} EnumerateShape(n: Node, k: nat, prefix: string, s: string)
    requires k <= |n.kids| && s in Enumerate(n, k, prefix)
    ensures |s| > |prefix| && s[..|prefix|] == prefix
    ensures exists j :: 0 <= j < k && n.kids[j].1.ch == s[|prefix|]
    decreases n, k
  {
    var child := n.kids[k - 1].1;
    var p := prefix + [child.ch];
    if s in Enumerate(n, k - 1, prefix) {
      EnumerateShape(n, k - 1, prefix, s);
      var j :| 0 <= j < k - 1 && n.kids[j].1.ch == s[|prefix|];
    } else if s in Enumerate(child, |child.kids|, p) {
      EnumerateShape(child, |child.kids|, p, s);
      assert s[..|p|][|prefix|] == child.ch;
    }
  }

  /** In a well-formed trie a line is printed for the first `k` children exactly when it
      extends the buffer by a path through one of them that ends in a word. */
  lemma {:induction false} EnumerateSpec(n: Node, k: nat, prefix: string, s: string)
    requires Wf(n) && k <= |n.kids|
    ensures s in Enumerate(n, k, prefix) <==>
      |s| > |prefix| && s[..|prefix|] == prefix && EndAt(n, s[|prefix|..]) &&
      exists j :: 0 <= j < k && n.kids[j].0 == s[|prefix|]
    decreases n, k
  {
    if k > 0 {
      var child := n.kids[k - 1].1;
      var p := prefix + [child.ch];
      EnumerateSpec(n, k - 1, prefix, s);
      EnumerateSpec(child, |child.kids|, p, s);
      if |s| > |prefix| && s[..|prefix|] == prefix {
        if s[|prefix|] == n.kids[k - 1].0 {
          LastChildLine(n, k, prefix, s);
        } else {
          assert s[..|p|] != p by {
            assert s[..|p|][|prefix|] == s[|prefix|];
          }
        }
      } else {
        assert s != p;
        if |s| > |p| {
          assert s[..|p|][..|prefix|] == s[..|prefix|];
        }
      }
    }
  }

  /** A line through the last of the first `k` children ends a word exactly when it is
      that child's own word or a word below it, and no earlier child has its key. */
  lemma LastChildLine(n: Node, k: nat, prefix: string, s: string)
    requires Wf(n) && 0 < k <= |n.kids|
    requires |s| > |prefix| && s[..|prefix|] == prefix && s[|prefix|] == n.kids[k - 1].0
    ensures var child := n.kids[k - 1].1;
      var p := prefix + [child.ch];
      EndAt(n, s[|prefix|..]) <==>
        (s == p && child.end) ||
        (|s| > |p| && s[..|p|] == p && EndAt(child, s[|p|..]) &&
         exists j :: 0 <= j < |child.kids| && child.kids[j].0 == s[|p|])
    ensures !(exists j :: 0 <= j < k - 1 && n.kids[j].0 == s[|prefix|])
  {
    var c := n.kids[k - 1].0;
    var child := n.kids[k - 1].1;
    var p := prefix + [child.ch];
    var t := s[|prefix|..];
    assert t == [s[|prefix|]] + t[1..];
    assert child.ch == c;
    assert Lookup(n.kids, c) == Some(k - 1);
    assert Walk(n, t) == Walk(child, t[1..]);
    assert s[..|p|] == p && s[|p|..] == t[1..];
    if t[1..] == [] {
      assert s == p;
    } else {
      assert s != p;
      if Walk(child, t[1..]).Some? {
        var j := Lookup(child.kids, s[|p|]).value;
      }
    }
  }

  /** A line printed for an earlier child starts with that child's character, which
      differs from the last child's, so the last child prints no such line. */
  lemma EarlierApart(n: Node, k: nat, prefix: string, x: string)
    requires Wf(n) && 0 < k <= |n.kids| && x in Enumerate(n, k - 1, prefix)
    ensures var child := n.kids[k - 1].1;
      var p := prefix + [child.ch];
      x != p && x !in Enumerate(child, |child.kids|, p)
  {
    var child := n.kids[k - 1].1;
    var p := prefix + [child.ch];
    EnumerateShape(n, k - 1, prefix, x);
    var j :| 0 <= j < k - 1 && n.kids[j].1.ch == x[|prefix|];
    assert n.kids[j].0 != n.kids[k - 1].0;
    if x in Enumerate(child, |child.kids|, p) {
      EnumerateShape(child, |child.kids|, p, x);
    }
  }

  lemma NoDuplicatesConcat(a: seq<string>, b: seq<string>)
    requires NoDuplicates(a) && NoDuplicates(b)
    requires forall x :: x in a ==> x !in b
    ensures NoDuplicates(a + b)
  {
    var ab := a + b;
    forall i, j | 0 <= i < j < |ab| ensures ab[i] != ab[j] {
      if i < |a| && j >= |a| {
        assert ab[i] in a && ab[j] == b[j - |a|];
      }
    }
  }

  /** In a well-formed trie no line is printed twice. */
  lemma {:induction false} EnumerateNoDuplicates(n: Node, k: nat, prefix: string)
    requires Wf(n) && k <= |n.kids|
    ensures NoDuplicates(Enumerate(n, k, prefix))
    decreases n, k
  {
    if k > 0 {
      var child := n.kids[k - 1].1;
      var p := prefix + [child.ch];
      var front := Enumerate(n, k - 1, prefix);
      var here := if child.end then [p] else [];
      var below := Enumerate(child, |child.kids|, p);
      EnumerateNoDuplicates(n, k - 1, prefix);
      EnumerateNoDuplicates(child, |child.kids|, p);
      forall x | x in below ensures x !in here {
        EnumerateShape(child, |child.kids|, p, x);
      }
      NoDuplicatesConcat(here, below);
      forall x | x in front ensures x !in here + below {
        EarlierApart(n, k, prefix, x);
      }
      NoDuplicatesConcat(front, here + below);
      assert Enumerate(n, k, prefix) == front + (here + below);
    }
  }

  /** printDictionary prints exactly the stored words: the non-empty paths from the root
      that end at a flagged node, each once. */
  lemma WordsSpec(root: Node, s: string)
    requires Wf(root)
    ensures s in Words(root) <==> |s| > 0 && EndAt(root, s)
    ensures NoDuplicates(Words(root))
  {
    EnumerateSpec(root, |root.kids|, [], s);
    EnumerateNoDuplicates(root, |root.kids|, []);
    assert s[..0] == [] && s[0..] == s;
    if |s| > 0 && EndAt(root, s) {
      var j := Lookup(root.kids, s[0]).value;
    }
  }

  /** Search and enumeration agree: a query is found exactly when its lower-cased form is
      one of the printed words. */
  lemma SearchIffListed(root: Node, v: string)
    requires Wf(root)
    ensures Search(root, v) <==> Fold(v) in Words(root)
  {
    WordsSpec(root, Fold(v));
  }

  /** The dictionary built from a word list prints each lower-cased non-empty line exactly
      once and nothing else. */
  lemma WordsLoaded(lines: seq<string>, s: string)
    ensures s in Words(Load(Empty(), lines)) <==>
      exists i :: 0 <= i < |lines| && |lines[i]| > 0 && s == Fold(lines[i])
    ensures NoDuplicates(Words(Load(Empty(), lines)))
  {
    LoadWf(Empty(), lines);
    WordsSpec(Load(Empty(), lines), s);
    LoadEndAt(Empty(), lines, s);
    LeafEndAt(Empty(), s);
  }

  // ---------------------------------------------------------------------------
  // Worked scenarios

  function Leaf(end: bool, c: char): Node {
    Node(end, c, [])
  }

  lemma LoadMan()
    ensures Insert(Empty(), "Man") ==
      Node(false, '\0', [('m', Node(false, 'm', [('a', Node(false, 'a', [('n', Leaf(true, 'n'))]))]))])
  {
    assert "Man"[1..] == "an" && "an"[1..] == "n";
    var n := Insert(Leaf(false, 'a'), "n");
    assert n == Node(false, 'a', [('n', Leaf(true, 'n'))]);
    var an := Insert(Leaf(false, 'm'), "an");
    assert an == Node(false, 'm', [('a', n)]);
  }

  lemma LoadMens()
    ensures Insert(Insert(Empty(), "Man"), "Mens") ==
      Node(false, '\0', [('m', Node(false, 'm', [
        ('a', Node(false, 'a', [('n', Leaf(true, 'n'))])),
        ('e', Node(false, 'e', [('n', Node(false, 'n', [('s', Leaf(true, 's'))]))]))]))])
  {
    LoadMan();
    assert "Mens"[1..] == "ens" && "ens"[1..] == "ns" && "ns"[1..] == "s";
    var s := Insert(Leaf(false, 'n'), "s");
    assert s == Node(false, 'n', [('s', Leaf(true, 's'))]);
    var ns := Insert(Leaf(false, 'e'), "ns");
    assert ns == Node(false, 'e', [('n', s)]);
    var m := Node(false, 'm', [('a', Node(false, 'a', [('n', Leaf(true, 'n'))]))]);
    assert Lookup(m.kids, 'e') == None;
    var ens := Insert(m, "ens");
    assert ens == Node(false, 'm', m.kids + [('e', ns)]);
    var root := Node(false, '\0', [('m', m)]);
    assert Insert(Empty(), "Man") == root;
    assert Lookup(root.kids, 'm') == Some(0) && ToLower('M') == 'm';
    assert Insert(root, "Mens") == Node(false, '\0', [('m', ens)]);
    assert m.kids + [('e', ns)] == [m.kids[0], ('e', ns)];
  }

  /** Loading the three lines is inserting them one after the other. */
  lemma LoadThree()
    ensures Load(Empty(), ["Man", "Mens", "Men"]) == Insert(Insert(Insert(Empty(), "Man"), "Mens"), "Men")
  {
    var lines := ["Man", "Mens", "Men"];
    assert lines[..2][..1][..0] == [];
    assert Load(Empty(), lines[..2][..1]) == Insert(Empty(), "Man");
    assert Load(Empty(), lines[..2]) == Insert(Insert(Empty(), "Man"), "Mens");
  }

  /** Inserting "Men" into the trie of "Man" and "Mens" only flags the existing node
      for "men". */
  lemma InsertMen()
    ensures Insert(Node(false, '\0', [('m', Node(false, 'm', [
        ('a', Node(false, 'a', [('n', Leaf(true, 'n'))])),
        ('e', Node(false, 'e', [('n', Node(false, 'n', [('s', Leaf(true, 's'))]))]))]))]), "Men") ==
      ManMensMenTrie()
  {
    assert "Men"[1..] == "en" && "en"[1..] == "n";
    var e := Node(false, 'e', [('n', Node(false, 'n', [('s', Leaf(true, 's'))]))]);
    var en := Insert(e, "n");
    assert en == Node(false, 'e', [('n', Node(true, 'n', [('s', Leaf(true, 's'))]))]);
    var m := Node(false, 'm', [('a', Node(false, 'a', [('n', Leaf(true, 'n'))])), ('e', e)]);
    assert Lookup(m.kids, 'e') == Some(1);
    assert Insert(m, "en") == Node(false, 'm', [m.kids[0], ('e', en)]);
  }

  lemma LoadMen()
    ensures Load(Empty(), ["Man", "Mens", "Men"]) == ManMensMenTrie()
  {
    LoadThree();
    LoadMens();
    InsertMen();
  }

  function ManMensMenTrie(): Node {
    Node(false, '\0', [('m', Node(false, 'm', [
      ('a', Node(false, 'a', [('n', Leaf(true, 'n'))])),
      ('e', Node(false, 'e', [('n', Node(true, 'n', [('s', Leaf(true, 's'))]))]))]))])
  }

  lemma ManMensMenBelowE()
    ensures Enumerate(ManMensMenTrie().kids[0].1.kids[1].1, 1, "me") == ["men", "mens"]
  {
    var e := ManMensMenTrie().kids[0].1.kids[1].1;
    var n := e.kids[0].1;
    assert "me" + ['n'] == "men" && "men" + ['s'] == "mens";
    assert Enumerate(n.kids[0].1, 0, "mens") == [];
    assert Enumerate(n, 1, "men") == ["mens"];
  }

  lemma ManMensMenBelowM()
    ensures Enumerate(ManMensMenTrie().kids[0].1, 2, "m") == ["man", "men", "mens"]
  {
    var m := ManMensMenTrie().kids[0].1;
    var a := m.kids[0].1;
    assert "m" + ['a'] == "ma" && "ma" + ['n'] == "man" && "m" + ['e'] == "me";
    assert Enumerate(a.kids[0].1, 0, "man") == [];
    assert Enumerate(a, 1, "ma") == ["man"];
    assert Enumerate(m, 1, "m") == ["man"];
    ManMensMenBelowE();
  }

  /** Loading "Man", "Mens", "Men": the m-node gets children a then e, so "man" is
      printed first, then "men" and "mens". */
  lemma ManMensMenTrieWords()
    ensures Words(ManMensMenTrie()) == ["man", "men", "mens"]
  {
    var t := ManMensMenTrie();
    assert "" + ['m'] == "m";
    ManMensMenBelowM();
    assert Enumerate(t, 1, "") == ["man", "men", "mens"];
  }

  lemma ManMensMenWords()
    ensures Words(Load(Empty(), ["Man", "Mens", "Men"])) == ["man", "men", "mens"]
  {
    LoadMen();
    ManMensMenTrieWords();
  }

  /** Queries against the trie built from "Man", "Mens", "Men". */
  lemma ManMensMenTrieFinds()
    ensures Search(ManMensMenTrie(), "Man") && Search(ManMensMenTrie(), "Mens")
  {
    var t := ManMensMenTrie();
    var m := t.kids[0].1;
    var e := m.kids[1].1;
    assert Fold("Man") == "man" && Fold("Mens") == "mens";
    assert Lookup(t.kids, 'm') == Some(0) && Lookup(m.kids, 'a') == Some(0);
    assert Lookup(m.kids, 'e') == Some(1) && Lookup(e.kids, 'n') == Some(0);
    assert Walk(m.kids[0].1, "n").value.end;
    assert Walk(e, "ns").value.end;
  }

  lemma ManMensMenTrieRejectsPrefix()
    ensures !Search(ManMensMenTrie(), "me") && !Search(ManMensMenTrie(), "")
  {
    var t := ManMensMenTrie();
    var m := t.kids[0].1;
    assert Fold("me") == "me";
    assert Lookup(t.kids, 'm') == Some(0) && Lookup(m.kids, 'e') == Some(1);
    assert "me"[1..] == "e" && "e"[1..] == "";
    assert Walk(m.kids[1].1, "") == Some(m.kids[1].1);
  }

  lemma ManMensMenTrieRejectsLonger()
    ensures !Search(ManMensMenTrie(), "mensa")
  {
    var t := ManMensMenTrie();
    var m := t.kids[0].1;
    var e := m.kids[1].1;
    var s := e.kids[0].1.kids[0].1;
    assert Fold("mensa") == "mensa";
    assert Lookup(t.kids, 'm') == Some(0) && Lookup(m.kids, 'e') == Some(1);
    assert "mensa"[1..] == "ensa" && "ensa"[1..] == "nsa" && "nsa"[1..] == "sa" && "sa"[1..] == "a";
    assert Walk(s, "a") == None;
  }

  lemma ManMensMenTrieRejectsOther()
    ensures !Search(ManMensMenTrie(), "a_liens")
  {
    var t := ManMensMenTrie();
    assert Fold("a_liens") == "a_liens";
    assert Lookup(t.kids, 'a') == None;
  }

  /** The dictionary loaded from "Man", "Mens", "Men" finds "Man" and "Mens" as written,
      and neither the prefix "me", the extension "mensa", the non-word "a_liens" nor the
      empty word. */
  lemma ManMensMenSearch()
    ensures var t := Load(Empty(), ["Man", "Mens", "Men"]);
      Search(t, "Man") && Search(t, "Mens") && !Search(t, "me") && !Search(t, "mensa") &&
      !Search(t, "a_liens") && !Search(t, "")
  {
    LoadMen();
    ManMensMenTrieFinds();
    ManMensMenTrieRejectsPrefix();
    ManMensMenTrieRejectsLonger();
    ManMensMenTrieRejectsOther();
  }
}
