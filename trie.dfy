/** The prefix tree that the colour-name generator builds over the
    lower-case colour names before it prints a matcher for them. */
module ColNames {

  predicate IsLower(c: char) {
    'a' <= c <= 'z'
  }

  predicate AllLower(w: string) {
    forall k :: 0 <= k < |w| ==> IsLower(w[k])
  }

  /** The child slot of a letter: `ord(letter) - ord('a')`. */
  function Slot(c: char): (k: int)
    ensures IsLower(c) ==> 0 <= k < 26
  {
    c as int - 'a' as int
  }

  /** The letter of a child slot. */
  function Letter(k: int): (c: char)
    requires 0 <= k < 26
    ensures IsLower(c) && Slot(c) == k
  {
    ('a' as int + k) as char
  }

  /** `p` is a prefix of `w`. */
  predicate IsPrefix(p: string, w: string) {
    |p| <= |w| && p == w[..|p|]
  }

  /** A node of the tree.  `word`, the key the node ends, is ghost state. */
  class Node {
    var isEnd: bool
    var prefixCount: int
    var parent: Node?
    var ch: string
    var children: seq<Node?>
    ghost var word: string

    /** A fresh node: no children in its 26 slots and a zero count. */
    constructor (parent: Node?, ch: string, isEnd: bool := false)
      ensures this.isEnd == isEnd && prefixCount == 0
      ensures this.parent == parent && this.ch == ch
      ensures |children| == 26 && forall k :: 0 <= k < 26 ==> children[k] == null
      ensures word == (if parent == null then "" else parent.word + ch)
    {
      this.isEnd := isEnd;
      this.prefixCount := 0;
      this.parent := parent;
      this.ch := ch;
      this.children := seq(26, _ => null);
      this.word := if parent == null then "" else parent.word + ch;
    }

    /** The node's parents, closest first: the `k`-th ends the key of this
        node without its last `k + 1` letters, so there are as many as the
        node is deep, none for the head, and the head comes last. */
    method Parents(ghost t: Trie) returns (ps: seq<Node>)
      requires t.Shape() && this in t.Repr
      ensures |ps| == |word|
      ensures forall k :: 0 <= k < |ps| ==> ps[k] in t.Repr && ps[k].word == word[..|word| - 1 - k]
      ensures ps == [] <==> this == t.head
      ensures ps != [] ==> ps[0] == parent && ps[|ps| - 1] == t.head
    {
      ps := [];
      var cur := this;
      while cur.parent != null
        invariant cur in t.Repr
        invariant |ps| + |cur.word| == |word| && cur.word == word[..|cur.word|]
        invariant forall k :: 0 <= k < |ps| ==> ps[k] in t.Repr && ps[k].word == word[..|word| - 1 - k]
        invariant ps != [] ==> ps[0] == parent && ps[|ps| - 1] == cur
        invariant ps == [] ==> cur == this
        decreases |cur.word|
      {
        t.Hang(cur);
        ps := ps + [cur.parent];
        cur := cur.parent;
      }
      t.Top(cur);
    }

    /** The key the node ends: the letters along its parent chain, the head
        excluded, root first. */
    method Key(ghost t: Trie) returns (s: string)
      requires t.Shape() && this in t.Repr
      ensures s == word
      ensures this == t.head ==> s == ""
      ensures s in t.At && t.At[s] == this
    {
      s := "";
      var cur := this;
      while cur.parent != null
        invariant cur in t.Repr
        invariant cur.word + s == word
        decreases |cur.word|
      {
        t.Hang(cur);
        s := cur.ch + s;
        cur := cur.parent;
      }
      t.Top(cur);
      t.Indexed(this);
    }
  }

  /** The tree.  `Repr` is its nodes, `At` maps every key to the node that
      ends it and `words` lists the words inserted, in order. */
  class Trie {
    var head: Node
    ghost var Repr: set<Node>
    ghost var At: map<string, Node>
    ghost var words: seq<string>

    /** Node `n` hangs in the slot of its letter under a parent of the tree
        and ends its parent's key plus that letter. */
    ghost predicate Hangs(n: Node)
      reads this`Repr, Repr`parent, Repr`word, Repr`ch, Repr`children
    {
      && n in Repr && n.parent != null && n.parent in Repr
      && |n.ch| == 1 && IsLower(n.ch[0])
      && n.word == n.parent.word + n.ch
      && |n.parent.children| == 26 && n.parent.children[Slot(n.ch[0])] == n
    }

    /** The links: every node but the head hangs under its parent; every
        child is a node of the tree whose parent link points back and whose
        letter is that of its slot; `At` indexes the nodes by key. */
    ghost predicate Shape()
      reads this`head, this`Repr, this`At, Repr`parent, Repr`word, Repr`ch, Repr`children
    {
      && head in Repr && head.parent == null && head.word == ""
      && (forall n {:trigger n in Repr} :: n in Repr ==> |n.children| == 26 && n.word in At && At[n.word] == n)
      && (forall n {:trigger Hangs(n)} :: n in Repr && n != head ==> Hangs(n))
      && (forall n, k {:trigger n.children[k]} :: n in Repr && 0 <= k < |n.children| && n.children[k] != null ==>
            && n.children[k] in Repr && n.children[k].parent == n
            && n.children[k].ch == [Letter(k)])
      && (forall u {:trigger u in At} :: u in At ==> At[u] in Repr && At[u].word == u)
    }

    /** A node other than the head hangs under its parent. */
    lemma Hang(n: Node)
      requires Shape() && n in Repr && n != head
      ensures Hangs(n)
    {
    }

    /** The only node without a parent is the head. */
    lemma Top(n: Node)
      requires Shape() && n in Repr && n.parent == null
      ensures n == head && n.word == ""
    {
      assert n != head ==> Hangs(n);
    }

    /** `At` finds every node under its key. */
    lemma Indexed(n: Node)
      requires Shape() && n in Repr
      ensures n.word in At && At[n.word] == n
    {
    }

    /** The node with key `p + [c]` hangs in the slot of `c` under the node
        with key `p`. */
    lemma SlotOfKey(p: string, c: char)
      requires Shape() && p + [c] in At
      ensures p in At && IsLower(c) && At[p].children[Slot(c)] == At[p + [c]]
    {
      var m := At[p + [c]];
      assert m != head;
      Hang(m);
      assert (p + [c])[..|p|] == p;
      assert m.parent.word == p;
      Indexed(m.parent);
    }

    /** Every prefix of a key is a key. */
    lemma {:induction false} PrefixInAt(u: string, d: nat)
      requires Shape() && u in At && d <= |u|
      ensures u[..d] in At
      decreases |u|
    {
      if d < |u| {
        var n := At[u];
        assert n != head;
        Hang(n);
        var v := n.parent.word;
        assert u == v + n.ch;
        assert u[..d] == v[..d];
        PrefixInAt(v, d);
      } else {
        assert u[..d] == u;
      }
    }

    /** The shape, and what the flags mean: every inserted word has a node,
        and a node ends an inserted word exactly when `isEnd` is set. */
    ghost predicate Valid()
      reads this`head, this`Repr, this`At, this`words
      reads Repr`parent, Repr`word, Repr`ch, Repr`children, Repr`isEnd
    {
      && Shape()
      && (forall u :: u in words ==> u in At)
      && (forall n {:trigger n in Repr} :: n in Repr ==> (n.isEnd <==> n.word in words))
    }

    constructor ()
      ensures Valid() && fresh(Repr)
      ensures words == [] && Repr == {head} && At == map["" := head]
      ensures head.children == seq(26, _ => null) && !head.isEnd && head.prefixCount == 0
    {
      head := new Node(null, "");
      new;
      Repr := {head};
      At := map["" := head];
      words := [];
    }

    /** The node reached from the head by following, for each letter of
        `u`, the child in that letter's slot; null when a slot is empty. */
    ghost function Walk(u: string): (r: Node?)
      requires Shape() && AllLower(u)
      reads this, Repr
      ensures r == null || r in Repr
      decreases |u|
    {
      if u == [] then head
      else
        var p := Walk(u[..|u| - 1]);
        if p == null then null else p.children[Slot(u[|u| - 1])]
    }

    /** Following the letters of `u` reaches exactly the node whose key is
        `u`, and an empty slot when no node has that key. */
    lemma {:induction false} WalkAt(u: string)
      requires Shape() && AllLower(u)
      ensures Walk(u) == if u in At then At[u] else null
      decreases |u|
    {
      if u != [] {
        var v, c := u[..|u| - 1], u[|u| - 1];
        assert u == v + [c];
        WalkAt(v);
        if u in At {
          var n := At[u];
          assert u[..|v|] == v;
          assert n != head;
          Hang(n);
          assert n.parent.word == v;
        } else if v in At {
          var child := At[v].children[Slot(c)];
          if child != null {
            assert Letter(Slot(c)) == c;
            assert child.ch == [c];
            Hang(child);
          }
        }
      }
    }

    /** Following the letters of a node's key from the head reaches that
        node, so `Key` and the walk of `insert` are inverse. */
    lemma {:induction false} Reach(n: Node)
      requires Shape() && n in Repr
      ensures AllLower(n.word) && Walk(n.word) == n
      decreases |n.word|
    {
      if n != head {
        Hang(n);
        Reach(n.parent);
        assert forall k :: 0 <= k < |n.parent.word| ==> n.word[k] == n.parent.word[k];
      }
      WalkAt(n.word);
      Indexed(n);
    }

    /** A new child of `current` in the empty slot of letter `c`. */
    method AddChild(current: Node, c: char) returns (child: Node)
      requires Shape() && current in Repr && IsLower(c) && current.children[Slot(c)] == null
      modifies this`Repr, this`At, current`children
      ensures Shape()
      ensures fresh(child) && Repr == old(Repr) + {child}
      ensures child.word == current.word + [c] && child.prefixCount == 0 && !child.isEnd
      ensures current.word + [c] !in old(At) && At == old(At)[current.word + [c] := child]
    {
      var slot := Slot(c);
      assert Letter(slot) == c;
      ghost var w := current.word + [c];
      Indexed(current);
      if w in At {
        SlotOfKey(current.word, c);
        assert false;
      }
      child := new Node(current, [c]);
      current.children := current.children[slot := child];
      Repr := Repr + {child};
      At := At[w := child];
      forall n {:trigger Hangs(n)} | n in Repr && n != head
        ensures Hangs(n)
      {
        if n != child {
          assert old(Hangs(n));
          if n.parent == current {
            assert old(current.children[Slot(n.ch[0])]) == n;
          }
        }
      }
      forall n {:trigger n in Repr} | n in Repr
        ensures |n.children| == 26 && n.word in At && At[n.word] == n
      {
        if n != child {
          assert old(n.word in At && At[n.word] == n);
        }
      }
      forall n, k {:trigger n.children[k]} | n in Repr && 0 <= k < |n.children| && n.children[k] != null
        ensures n.children[k] in Repr && n.children[k].parent == n && n.children[k].ch == [Letter(k)]
      {
        if n != child && !(n == current && k == slot) {
          assert old(n.children[k] != null);
        }
      }
    }

    /** The step of `insert` at one letter: the child in the letter's slot,
        created when the slot is empty, counts one more word. */
    method Descend(current: Node, c: char) returns (child: Node)
      requires Shape() && current in Repr && IsLower(c)
      requires forall u :: u in words ==> u in At
      requires forall n {:trigger n in Repr} :: n in Repr ==> (n.isEnd <==> n.word in words)
      modifies this`Repr, this`At, current`children, Repr`prefixCount
      ensures Shape()
      ensures Repr == old(Repr) + {child} && child.word == current.word + [c]
      ensures child in old(Repr) ==> Repr == old(Repr) && At == old(At)
      ensures child !in old(Repr) ==> fresh(child) && current.word + [c] !in old(At)
      ensures current.word + [c] in old(At) ==> child in old(Repr)
      ensures child.prefixCount == (if child in old(Repr) then old(child.prefixCount) else 0) + 1
      ensures forall n {:trigger n.prefixCount} :: n in old(Repr) && n != child ==> n.prefixCount == old(n.prefixCount)
      ensures forall n {:trigger n in Repr} :: n in Repr ==> (n.isEnd <==> n.word in words)
      ensures forall u :: u in words ==> u in At
      ensures forall u :: u in old(At) ==> u in At && At[u] == old(At)[u]
    {
      var slot := Slot(c);
      assert Letter(slot) == c;
      if current.children[slot] == null {
        child := AddChild(current, c);
      } else {
        child := current.children[slot];
        Hang(child);
        Indexed(child);
      }
      child.prefixCount := child.prefixCount + 1;
    }

    /** The end of `insert`: the node of the word becomes a word end. */
    method MarkEnd(n: Node, w: string)
      requires Shape() && n in Repr && n.word == w
      requires forall u :: u in words ==> u in At
      requires forall m {:trigger m in Repr} :: m in Repr ==> (m.isEnd <==> m.word in words)
      modifies this`words, n`isEnd
      ensures Valid() && words == old(words) + [w] && n.isEnd
      ensures forall m :: m in Repr ==> m.isEnd == (old(m.isEnd) || m.word == w)
    {
      forall m | m in Repr && m.word == w
        ensures m == n
      {
        Indexed(m);
        Indexed(n);
      }
      n.isEnd := true;
      words := words + [w];
    }

    /** After `insert` of `w` has consumed its first `i` letters: `path`
        holds exactly the nodes below the head whose key is a prefix of `w`
        of at most `i` letters, and these count one word more than in
        `count0`, new nodes counting from zero. */
    ghost predicate Counted(w: string, i: nat, path: set<Node>, count0: map<Node, int>)
      reads this`head, this`Repr, Repr`word, Repr`prefixCount
    {
      && path <= Repr
      && (forall n {:trigger n in path} :: n in path ==> n != head && 1 <= |n.word| <= i && IsPrefix(n.word, w))
      && (forall n {:trigger IsPrefix(n.word, w)} ::
           n in Repr && n != head && IsPrefix(n.word, w) && |n.word| <= i ==> n in path)
      && (forall n {:trigger n.prefixCount} :: n in Repr ==>
           n.prefixCount == (if n in count0 then count0[n] else 0) + (if n in path then 1 else 0))
    }

    /** Once every letter is consumed, the nodes counting one more word
        are those whose key is a prefix of `w`. */
    lemma CountedAll(w: string, path: set<Node>, count0: map<Node, int>)
      requires Counted(w, |w|, path, count0)
      ensures forall n {:trigger n.prefixCount} :: n in Repr ==>
        n.prefixCount == (if n in count0 then count0[n] else 0) + (if n != head && IsPrefix(n.word, w) then 1 else 0)
    {
    }

    /** One turn of the loop of `insert`, at letter `i` of `w`. */
    method Step(current: Node, w: string, i: nat, ghost path: set<Node>, ghost count0: map<Node, int>)
      returns (child: Node)
      requires Valid() && i < |w| && IsLower(w[i])
      requires current in Repr && current.word == w[..i]
      requires Counted(w, i, path, count0)
      modifies this`Repr, this`At, current`children, Repr`prefixCount
      ensures Valid()
      ensures Repr == old(Repr) + {child} && child.word == w[..i + 1]
      ensures child in old(Repr) ==> Repr == old(Repr) && At == old(At)
      ensures child !in old(Repr) ==> fresh(child) && w[..i + 1] !in old(At)
      ensures Counted(w, i + 1, path + {child}, count0)
      ensures forall n :: n in old(Repr) ==> n.isEnd == old(n.isEnd)
      ensures forall u :: u in old(At) ==> u in At && At[u] == old(At)[u]
    {
      assert w[..i + 1] == current.word + [w[i]];
      child := Descend(current, w[i]);
      assert child !in path;
      assert child in count0 ==> child in old(Repr);
      forall n {:trigger IsPrefix(n.word, w)} | n in Repr && n != head && IsPrefix(n.word, w) && |n.word| <= i + 1
        ensures n in path + {child}
      {
        if |n.word| == i + 1 {
          Indexed(n);
          Indexed(child);
        }
      }
    }

    /** The loop of `insert`: it walks down the letters of `w`, creating
        the nodes that are missing, and each node it reaches counts one more
        word. */
    method Follow(w: string, ghost count0: map<Node, int>) returns (current: Node, ghost path: set<Node>)
      requires Valid() && AllLower(w)
      requires forall n {:trigger n.prefixCount} :: n in Repr ==> n in count0 && count0[n] == n.prefixCount
      modifies this`Repr, this`At, Repr`children, Repr`prefixCount
      ensures Valid()
      ensures old(Repr) <= Repr && fresh(Repr - old(Repr))
      ensures current in Repr && current.word == w
      ensures w in old(At) ==> Repr == old(Repr) && At == old(At)
      ensures Counted(w, |w|, path, count0)
      ensures forall n :: n in Repr && n !in old(Repr) ==> n != head && IsPrefix(n.word, w)
      ensures forall u :: u in old(At) ==> u in At && At[u] == old(At)[u]
    {
      path := {};
      current := head;
      var i := 0;
      while i < |w|
        invariant 0 <= i <= |w|
        invariant Valid()
        invariant old(Repr) <= Repr && fresh(Repr - old(Repr))
        invariant current in Repr && current.word == w[..i]
        invariant w in old(At) ==> Repr == old(Repr) && At == old(At)
        invariant Counted(w, i, path, count0) && Repr - old(Repr) <= path
        invariant forall u :: u in old(At) ==> u in At && At[u] == old(At)[u]
      {
        if w in old(At) {
          PrefixInAt(w, i + 1);
        }
        var child := Step(current, w, i, path, count0);
        path := path + {child};
        current := child;
        i := i + 1;
      }
      assert w[..i] == w;
      forall n | n in Repr && n !in old(Repr)
        ensures n != head && IsPrefix(n.word, w)
      {
        assert n in path;
      }
    }

    /** A child found in a slot before a change that keeps the shape, the
        head, and every old node's parent and letter is still in that slot. */
    twostate lemma SlotsKept()
      requires old(Shape()) && Shape() && old(Repr) <= Repr && head == old(head)
      requires forall n :: n in old(Repr) ==> unchanged(n`parent, n`ch)
      ensures forall n, k :: n in old(Repr) && 0 <= k < |old(n.children)| && old(n.children)[k] != null ==>
        k < |n.children| && n.children[k] == old(n.children)[k]
    {
      forall n, k | n in old(Repr) && 0 <= k < |old(n.children)| && old(n.children)[k] != null
        ensures k < |n.children| && n.children[k] == old(n.children)[k]
      {
        var m := old(n.children)[k];
        assert old(n.children[k] in Repr && n.children[k].parent == n && n.children[k].ch == [Letter(k)]);
        assert m != head;
        Hang(m);
        assert Slot(m.ch[0]) == k;
      }
    }

    /** `insert`: after it `word` is reachable letter by letter and marked
        as a word end, every node on its path counts one more word, no other
        node changes its flag or count, and nodes are created only for the
        part of the path that was missing.  Existing nodes keep their
        parent, letter and key, every key keeps its node, and a child
        already in a slot stays there: only empty slots are filled. */
    method Insert(w: string)
      requires Valid() && AllLower(w)
      modifies this`Repr, this`At, this`words, Repr`children, Repr`prefixCount, Repr`isEnd
      ensures Valid() && head == old(head)
      ensures words == old(words) + [w]
      ensures old(Repr) <= Repr && fresh(Repr - old(Repr))
      ensures w in old(At) ==> Repr == old(Repr)
      ensures forall n :: n in Repr && n !in old(Repr) ==> n != head && IsPrefix(n.word, w)
      ensures Walk(w) != null && Walk(w).isEnd && Walk(w).word == w
      ensures forall n :: n in old(Repr) ==> n.isEnd == (old(n.isEnd) || n.word == w)
      ensures forall n :: n in Repr ==>
        (n.prefixCount == (if n in old(Repr) then old(n.prefixCount) else 0) + (if n != head && IsPrefix(n.word, w) then 1 else 0))
      ensures forall u :: u in old(At) ==> u in At && At[u] == old(At)[u]
      ensures forall n :: n in old(Repr) ==> unchanged(n`parent, n`ch, n`word)
      ensures forall n, k :: n in old(Repr) && 0 <= k < |old(n.children)| && old(n.children)[k] != null ==>
        k < |n.children| && n.children[k] == old(n.children)[k]
    {
      ghost var count0 := map n | n in Repr :: n.prefixCount;
      var current;
      ghost var path;
      current, path := Follow(w, count0);
      CountedAll(w, path, count0);
      MarkEnd(current, w);
      WalkAt(w);
      SlotsKept();
    }
  }
}
