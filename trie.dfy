/** The dictionary (trie/trie.go): a 26-ary trie over lowercase ASCII words.
    The nodes live in an arena, `nodes`, and a child slot holds the index
    of its node or `Nil`; the arena only grows, so no node is ever shared
    or freed. The trie's meaning is the ghost set `words`, tied to the
    arena by `Valid()` through the ghost map `paths`, which names the node
    each letter path leads to. */
module Trie {
  import opened Basics

  /** `letters`: the width of every child array. */
  const Letters := 26

  /** A rune `checkInput` accepts: one byte to encode and lower case. Among
      one-byte runes the lower-case ones are exactly 'a' to 'z'. */
  predicate IsLowerAscii(c: char) {
    'a' <= c <= 'z'
  }

  /** A string made only of accepted runes. */
  predicate IsWord(s: string) {
    forall k :: 0 <= k < |s| ==> IsLowerAscii(s[k])
  }

  /** The letter stored at child slot `c`. */
  function LetterOf(c: int): (l: char)
    requires 0 <= c < Letters
    ensures 'a' <= l <= 'z' && l as int == 'a' as int + c
  {
    ('a' as int + c) as char
  }

  /** `toIndex`: the rune's one byte, counted from 'a'. The source panics
      on a rune that takes more than one byte. */
  function ToIndex(r: char): (i: int)
    requires r as int < 0x80
    ensures IsLowerAscii(r) ==> 0 <= i < Letters && LetterOf(i) == r
    ensures !IsLowerAscii(r) ==> !(0 <= i < Letters)
  {
    r as int - 'a' as int
  }

  /** Why `checkInput` refused a string: the byte offset of the first
      refused rune, the rune, and (for a wide rune) its encoded length. */
  datatype InputError = TooWide(at: nat, rune: char, bytes: nat) | NotLower(at: nat, rune: char)

  /** `checkInput`: None exactly for words; otherwise the first refused
      rune, which is too wide when it takes more than one byte and not
      lower case otherwise. Every rune before it is one byte, so its byte
      offset is its rune index. */
  method CheckInput(word: string) returns (err: Option<InputError>)
    ensures err.None? <==> IsWord(word)
    ensures err.Some? ==> var at := err.value.at;
      at < |word| && IsWord(word[..at]) && Utf8Width(word[..at]) == at &&
      err.value.rune == word[at] && !IsLowerAscii(word[at]) &&
      (err.value.TooWide? <==> Utf8Len(word[at]) != 1) &&
      (err.value.TooWide? ==> err.value.bytes == Utf8Len(word[at]))
  {
    var k := 0;
    while k < |word|
      invariant k <= |word| && IsWord(word[..k])
    {
      var r := word[k];
      var n := Utf8Len(r);
      if n != 1 {
        WordWidth(word[..k]);
        return Some(TooWide(k, r, n));
      }
      if !IsLowerAscii(r) {
        WordWidth(word[..k]);
        return Some(NotLower(k, r));
      }
      assert word[..k + 1] == word[..k] + [r];
      k := k + 1;
    }
    assert word[..k] == word;
    return None;
  }

  lemma WordWidth(s: string)
    requires IsWord(s)
    ensures Utf8Width(s) == |s|
  {
    AsciiWidth(s);
  }

  /** A child slot: empty (`nil`) or the arena index of a node. */
  datatype Ptr = Nil | Ref(index: nat)

  /** `node`: the end-of-word mark, the letter, and the 26 child slots. */
  datatype Node = Node(leaf: bool, letter: char, children: seq<Ptr>)

  /** What `curNodes` points at: the trie's root array or a node's children. */
  datatype Owner = Roots | Inner(index: nat)

  /** Twenty-six empty slots, as a fresh child array. */
  function Nils(): (s: seq<Ptr>)
    ensures |s| == Letters && forall c :: 0 <= c < Letters ==> s[c] == Nil
  {
    seq(Letters, c => Nil)
  }

  /** The slot for path `p`: the node `paths` names for it, if any. */
  function Slot(paths: map<string, nat>, p: string): Ptr {
    if p in paths then Ref(paths[p]) else Nil
  }

  /** A path without its last letter. */
  function Parent(p: string): string
    requires p != []
  {
    p[..|p| - 1]
  }

  /** Every child array has the 26 slots. */
  predicate Shaped(roots: seq<Ptr>, nodes: seq<Node>) {
    |roots| == Letters && forall i :: 0 <= i < |nodes| ==> |nodes[i].children| == Letters
  }

  /** Each path is a nonempty word with its own node, which stores the
      path's last letter, and dropping a path's last letter leaves a path. */
  ghost predicate PathsWf(nodes: seq<Node>, paths: map<string, nat>) {
    (forall p :: p in paths ==>
      p != [] && IsWord(p) && paths[p] < |nodes| && nodes[paths[p]].letter == p[|p| - 1]) &&
    (forall p {:trigger Parent(p)} :: p in paths && |p| > 1 ==> Parent(p) in paths) &&
    (forall p, q :: p in paths && q in paths && paths[p] == paths[q] ==> p == q)
  }

  /** Slot c of the roots leads to the path of one letter. */
  ghost predicate RootsLinked(roots: seq<Ptr>, paths: map<string, nat>) {
    forall c :: 0 <= c < Letters && c < |roots| ==> roots[c] == Slot(paths, [LetterOf(c)])
  }

  /** Slot c of the node of path `p` leads to `p` plus that letter. */
  ghost predicate NodesLinked(nodes: seq<Node>, paths: map<string, nat>) {
    forall p, c {:trigger nodes[paths[p]].children[c]} ::
      p in paths && paths[p] < |nodes| && 0 <= c < Letters && c < |nodes[paths[p]].children| ==>
      nodes[paths[p]].children[c] == Slot(paths, p + [LetterOf(c)])
  }

  ghost predicate Linked(roots: seq<Ptr>, nodes: seq<Node>, paths: map<string, nat>) {
    RootsLinked(roots, paths) && NodesLinked(nodes, paths)
  }

  /** A word is a path whose node is marked as a leaf. */
  ghost predicate Marks(nodes: seq<Node>, paths: map<string, nat>, words: set<string>) {
    forall p :: p in words <==> p in paths && paths[p] < |nodes| && nodes[paths[p]].leaf
  }

  /** The arena represents the trie whose paths are `paths` and whose words
      are `words`. */
  ghost predicate Wf(roots: seq<Ptr>, nodes: seq<Node>, paths: map<string, nat>, words: set<string>) {
    Shaped(roots, nodes) && PathsWf(nodes, paths) && Linked(roots, nodes, paths) && Marks(nodes, paths, words)
  }

  lemma PrefixSnoc(s: string, i: nat)
    requires i < |s|
    ensures s[..i + 1] == s[..i] + [s[i]]
  {
  }

  /** Every prefix of a path is a path. */
  lemma {:induction false} PrefixesArePaths(nodes: seq<Node>, paths: map<string, nat>, p: string, k: nat)
    requires PathsWf(nodes, paths)
    requires p in paths && 1 <= k <= |p|
    ensures p[..k] in paths
    decreases |p| - k
  {
    if k < |p| {
      PrefixesArePaths(nodes, paths, p, k + 1);
      PrefixSnoc(p, k);
      assert Parent(p[..k + 1]) == p[..k];
    } else {
      assert p[..k] == p;
    }
  }

  /** `nodes2` is `nodes` with a new childless node for letter `l` at the
      end, which slot `idx` of node `o` now points at when `o` is a node. */
  ghost predicate GrownBy(nodes: seq<Node>, nodes2: seq<Node>, l: char, o: Owner, idx: int) {
    |nodes2| == |nodes| + 1 &&
    nodes2[|nodes|] == Node(false, l, Nils()) &&
    (forall i :: 0 <= i < |nodes| ==>
      nodes2[i].leaf == nodes[i].leaf && nodes2[i].letter == nodes[i].letter &&
      |nodes2[i].children| == |nodes[i].children|) &&
    (forall i, c :: 0 <= i < |nodes| && 0 <= c < |nodes[i].children| ==>
      nodes2[i].children[c] == if o == Inner(i) && c == idx then Ref(|nodes|) else nodes[i].children[c])
  }

  lemma GrowShaped(roots: seq<Ptr>, roots2: seq<Ptr>, nodes: seq<Node>, nodes2: seq<Node>, l: char, o: Owner, idx: int)
    requires Shaped(roots, nodes) && GrownBy(nodes, nodes2, l, o, idx) && |roots2| == |roots|
    ensures Shaped(roots2, nodes2)
  {
  }

  /** The new path keeps the paths well formed. */
  lemma GrowPaths(nodes: seq<Node>, nodes2: seq<Node>, paths: map<string, nat>, p: string, l: char, o: Owner, idx: int)
    requires PathsWf(nodes, paths) && GrownBy(nodes, nodes2, l, o, idx)
    requires p == [] || p in paths
    requires IsLowerAscii(l) && p + [l] !in paths
    ensures PathsWf(nodes2, paths[p + [l] := |nodes|])
  {
    var q := p + [l];
    var paths2 := paths[q := |nodes|];
    assert IsWord(q) by {
      assert forall k :: 0 <= k < |p| ==> q[k] == p[k];
    }
    assert Parent(q) == p;
  }

  /** The new node is linked from exactly the slot of the new path. */
  lemma GrowLinked(roots: seq<Ptr>, roots2: seq<Ptr>, nodes: seq<Node>, nodes2: seq<Node>,
                   paths: map<string, nat>, p: string, l: char)
    requires Shaped(roots, nodes) && PathsWf(nodes, paths) && Linked(roots, nodes, paths)
    requires p == [] || p in paths
    requires IsLowerAscii(l) && p + [l] !in paths
    requires GrownBy(nodes, nodes2, l, if p == [] then Roots else Inner(paths[p]), ToIndex(l))
    requires roots2 == if p == [] then roots[ToIndex(l) := Ref(|nodes|)] else roots
    ensures Linked(roots2, nodes2, paths[p + [l] := |nodes|])
  {
    GrowRoots(roots, roots2, |nodes|, paths, p, l);
    GrowNodes(roots, nodes, nodes2, paths, p, l);
  }

  lemma GrowRoots(roots: seq<Ptr>, roots2: seq<Ptr>, at: nat, paths: map<string, nat>, p: string, l: char)
    requires RootsLinked(roots, paths) && |roots| == Letters
    requires IsLowerAscii(l) && p + [l] !in paths
    requires roots2 == if p == [] then roots[ToIndex(l) := Ref(at)] else roots
    ensures RootsLinked(roots2, paths[p + [l] := at])
  {
    var q := p + [l];
    var paths2 := paths[q := at];
    forall c | 0 <= c < Letters && c < |roots2|
      ensures roots2[c] == Slot(paths2, [LetterOf(c)])
    {
      if [LetterOf(c)] == q {
        assert |p| == 0 && q[0] == l;
        assert LetterOf(c) == l;
      }
    }
  }

  lemma GrowNodes(roots: seq<Ptr>, nodes: seq<Node>, nodes2: seq<Node>, paths: map<string, nat>, p: string, l: char)
    requires Shaped(roots, nodes) && PathsWf(nodes, paths) && Linked(roots, nodes, paths)
    requires p == [] || p in paths
    requires IsLowerAscii(l) && p + [l] !in paths
    requires GrownBy(nodes, nodes2, l, if p == [] then Roots else Inner(paths[p]), ToIndex(l))
    ensures NodesLinked(nodes2, paths[p + [l] := |nodes|])
  {
    var paths2 := paths[p + [l] := |nodes|];
    forall p', c | p' in paths2 && paths2[p'] < |nodes2| && 0 <= c < Letters && c < |nodes2[paths2[p']].children|
      ensures nodes2[paths2[p']].children[c] == Slot(paths2, p' + [LetterOf(c)])
    {
      GrowSlot(roots, nodes, nodes2, paths, p, l, p', c);
    }
  }

  lemma GrowSlot(roots: seq<Ptr>, nodes: seq<Node>, nodes2: seq<Node>, paths: map<string, nat>,
                 p: string, l: char, p': string, c: int)
    requires Shaped(roots, nodes) && PathsWf(nodes, paths) && Linked(roots, nodes, paths)
    requires p == [] || p in paths
    requires IsLowerAscii(l) && p + [l] !in paths
    requires GrownBy(nodes, nodes2, l, if p == [] then Roots else Inner(paths[p]), ToIndex(l))
    requires p' in paths[p + [l] := |nodes|] && 0 <= c < Letters
    ensures var paths2 := paths[p + [l] := |nodes|];
      nodes2[paths2[p']].children[c] == Slot(paths2, p' + [LetterOf(c)])
  {
    var q := p + [l];
    var paths2 := paths[q := |nodes|];
    var child := p' + [LetterOf(c)];
    assert Parent(child) == p';
    if p' == q {
      assert child !in paths;
    } else {
      assert p' in paths;
      if child == q {
        assert p' == q[..|p|] == p;
        assert c == ToIndex(l);
      } else if p != [] && p' != p {
        assert paths[p'] != paths[p];
      }
    }
  }

  /** The new node is not a leaf, so the words stay as they were. */
  lemma GrowMarks(nodes: seq<Node>, nodes2: seq<Node>, paths: map<string, nat>, words: set<string>,
                  p: string, l: char, o: Owner, idx: int)
    requires PathsWf(nodes, paths) && Marks(nodes, paths, words) && GrownBy(nodes, nodes2, l, o, idx)
    requires p + [l] !in paths
    ensures Marks(nodes2, paths[p + [l] := |nodes|], words)
  {
  }

  /** Growing the path `p` by letter `l` into a new node at the end of the
      arena, linked from `p`'s slot, keeps the arena well formed. */
  lemma GrowKeepsWf(roots: seq<Ptr>, roots2: seq<Ptr>, nodes: seq<Node>, nodes2: seq<Node>,
                    paths: map<string, nat>, words: set<string>, p: string, l: char)
    requires Wf(roots, nodes, paths, words)
    requires p == [] || p in paths
    requires IsLowerAscii(l) && p + [l] !in paths
    requires GrownBy(nodes, nodes2, l, if p == [] then Roots else Inner(paths[p]), ToIndex(l))
    requires roots2 == if p == [] then roots[ToIndex(l) := Ref(|nodes|)] else roots
    ensures Wf(roots2, nodes2, paths[p + [l] := |nodes|], words)
  {
    var o := if p == [] then Roots else Inner(paths[p]);
    GrowShaped(roots, roots2, nodes, nodes2, l, o, ToIndex(l));
    GrowPaths(nodes, nodes2, paths, p, l, o, ToIndex(l));
    GrowLinked(roots, roots2, nodes, nodes2, paths, p, l);
    GrowMarks(nodes, nodes2, paths, words, p, l, o, ToIndex(l));
  }

  /** Appending the node and setting the owner's slot grows the arena as
      `GrownBy` says. */
  lemma AttachGrows(nodes: seq<Node>, l: char, o: Owner, idx: int, nodes2: seq<Node>)
    requires 0 <= idx < Letters && (o.Inner? ==> o.index < |nodes| && |nodes[o.index].children| == Letters)
    requires var grown := nodes + [Node(false, l, Nils())];
      nodes2 == if o.Roots? then grown
        else grown[o.index := grown[o.index].(children := grown[o.index].children[idx := Ref(|nodes|)])]
    ensures GrownBy(nodes, nodes2, l, o, idx)
  {
  }

  /** The slot of path `p` for letter `l` holds the node of `p` plus `l`. */
  lemma SlotOf(roots: seq<Ptr>, nodes: seq<Node>, paths: map<string, nat>, p: string, l: char)
    requires Shaped(roots, nodes) && PathsWf(nodes, paths) && Linked(roots, nodes, paths)
    requires p == [] || p in paths
    requires IsLowerAscii(l)
    ensures (if p == [] then roots else nodes[paths[p]].children)[ToIndex(l)] == Slot(paths, p + [l])
  {
    if p == [] {
      assert p + [l] == [LetterOf(ToIndex(l))];
    } else {
      assert p + [l] == p + [LetterOf(ToIndex(l))];
    }
  }

  /** Marking the node of path `w` as a leaf adds `w` to the words. */
  lemma MarkKeepsWf(roots: seq<Ptr>, nodes: seq<Node>, paths: map<string, nat>, words: set<string>, w: string)
    requires Wf(roots, nodes, paths, words)
    requires w in paths
    ensures Wf(roots, nodes[paths[w] := nodes[paths[w]].(leaf := true)], paths, words + {w})
  {
    var nodes2 := nodes[paths[w] := nodes[paths[w]].(leaf := true)];
    forall p | p in paths
      ensures nodes2[paths[p]].leaf <==> nodes[paths[p]].leaf || p == w
    {
    }
  }

  /** The words of a trie that was given `lines` in order: the lines
      `addWord` accepts and that are not empty. */
  function Inserted(lines: seq<string>): (s: set<string>)
    ensures forall w :: w in s <==> w in lines && w != [] && IsWord(w)
  {
    if lines == [] then {}
    else
      var n := |lines| - 1;
      var w := lines[n];
      assert lines == lines[..n] + [w];
      Inserted(lines[..n]) + (if w != [] && IsWord(w) then {w} else {})
  }

  /** `Trie`: the root array and the word count. */
  class Trie {
    var roots: seq<Ptr>
    var nodes: seq<Node>
    var size: int
    ghost var paths: map<string, nat>
    ghost var words: set<string>

    /** The arena represents `words`, and `size` is still 0: no operation
        ever changes it. */
    ghost predicate Valid()
      reads this
    {
      Wf(roots, nodes, paths, words) && size == 0
    }

    /** `new(Trie)`: no roots, no words. */
    constructor Empty()
      ensures Valid() && words == {}
    {
      roots := Nils();
      nodes := [];
      size := 0;
      paths := map[];
      words := {};
    }

    /** `Size`: the count is never incremented, so it is 0 whatever was
        added, although it is documented as the number of words. */
    function Size(): (n: int)
      reads this
      requires Valid()
      ensures n == 0
    {
      size
    }

    /** `HasWord`: an error exactly for input that is not a word, and true
        exactly for the words that were added; the empty string and proper
        prefixes of added words are not found unless added themselves. */
    method HasWord(word: string) returns (found: bool, err: Option<InputError>)
      requires Valid()
      ensures err.None? <==> IsWord(word)
      ensures found <==> word in words
    {
      err := CheckInput(word);
      if err.Some? {
        assert word !in paths;
        return false, err;
      }
      var cur := roots;
      var n := |word|;
      // On checked input every rune is one byte, so the byte offset `range`
      // yields is the rune index `i`.
      var i := 0;
      while i < n
        invariant 0 <= i <= n && (i == n ==> n == 0)
        invariant i == 0 ==> cur == roots
        invariant i > 0 ==> word[..i] in paths && cur == nodes[paths[word[..i]]].children
      {
        var idx := ToIndex(word[i]);
        var node := cur[idx];
        assert node == Slot(paths, word[..i + 1]) by {
          PrefixSnoc(word, i);
          SlotOf(roots, nodes, paths, word[..i], word[i]);
        }
        if node.Nil? {
          if word in paths {
            PrefixesArePaths(nodes, paths, word, i + 1);
          }
          return false, None;
        }
        if i == n - 1 {
          assert word[..i + 1] == word;
          return nodes[node.index].leaf, None;
        }
        cur := nodes[node.index].children;
        i := i + 1;
      }
      return false, None;
    }

    /** `addWord`: an error, and no change, exactly for input that is not a
        word; otherwise the word joins the set and no word leaves it (the
        empty word adds nothing). */
    method AddWord(word: string) returns (err: Option<InputError>)
      requires Valid()
      modifies this
      ensures Valid()
      ensures err.None? <==> IsWord(word)
      ensures words == if IsWord(word) && word != [] then old(words) + {word} else old(words)
      ensures err.Some? ==> roots == old(roots) && nodes == old(nodes)
    {
      err := CheckInput(word);
      if err.Some? {
        return;
      }
      var cur := Roots;
      var n := |word|;
      var i := 0;
      while i < n
        invariant 0 <= i <= n
        invariant Wf(roots, nodes, paths, words) && size == 0
        invariant words == if i == n && n > 0 then old(words) + {word} else old(words)
        invariant i == 0 ==> cur == Roots
        invariant i > 0 ==> word[..i] in paths && cur == Inner(paths[word[..i]])
      {
        var l := word[i];
        PrefixSnoc(word, i);
        var at := ChildFor(word[..i], cur, l);
        cur := Inner(at);
        if i == n - 1 {
          assert word[..i + 1] == word;
          MarkLeaf(word, at);
        }
        i := i + 1;
      }
    }

    /** `curNode.leaf = true`: the node of path `w` now ends a word. */
    method MarkLeaf(ghost w: string, at: nat)
      requires Wf(roots, nodes, paths, words) && size == 0
      requires w in paths && at == paths[w]
      modifies this
      ensures Wf(roots, nodes, paths, words) && size == 0
      ensures words == old(words) + {w} && paths == old(paths)
    {
      assert Wf(roots, nodes[at := nodes[at].(leaf := true)], paths, words + {w}) by {
        MarkKeepsWf(roots, nodes, paths, words, w);
      }
      nodes := nodes[at := nodes[at].(leaf := true)];
      words := words + {w};
    }

    /** One step of `addWord`: the node for path `p` plus letter `l`, which
        is appended to the arena and linked from the slot of `p` when the
        slot is empty. The words stay as they are. */
    method ChildFor(ghost p: string, cur: Owner, l: char) returns (at: nat)
      requires Wf(roots, nodes, paths, words) && size == 0
      requires IsLowerAscii(l)
      requires (p == [] && cur == Roots) || (p in paths && cur == Inner(paths[p]))
      modifies this
      ensures Wf(roots, nodes, paths, words) && size == 0 && words == old(words)
      ensures p + [l] in paths && at == paths[p + [l]]
    {
      var idx := ToIndex(l);
      var slot := if cur.Roots? then roots[idx] else nodes[cur.index].children[idx];
      assert slot == Slot(paths, p + [l]) by {
        SlotOf(roots, nodes, paths, p, l);
      }
      if slot.Ref? {
        return slot.index;
      }
      at := |nodes|;
      ghost var roots0, nodes0 := roots, nodes;
      var grown := nodes + [Node(false, l, Nils())];
      if cur.Roots? {
        roots := roots[idx := Ref(at)];
        nodes := grown;
      } else {
        nodes := grown[cur.index := grown[cur.index].(children := grown[cur.index].children[idx := Ref(at)])];
      }
      assert Wf(roots, nodes, paths[p + [l] := at], words) by {
        AttachGrows(nodes0, l, cur, idx, nodes);
        GrowKeepsWf(roots0, roots, nodes0, nodes, paths, words, p, l);
      }
      paths := paths[p + [l] := at];
    }
  }

  /** `New`: a trie holding every line that `addWord` accepts; refused
      lines are skipped, since the error is dropped. */
  method New(lines: seq<string>) returns (t: Trie)
    ensures fresh(t) && t.Valid()
    ensures t.words == Inserted(lines)
  {
    t := new Trie.Empty();
    var i := 0;
    while i < |lines|
      invariant 0 <= i <= |lines|
      invariant t.Valid() && t.words == Inserted(lines[..i])
    {
      assert lines[..i + 1][..i] == lines[..i];
      var _ := t.AddWord(lines[i]);
      i := i + 1;
    }
    assert lines[..i] == lines;
  }
}
