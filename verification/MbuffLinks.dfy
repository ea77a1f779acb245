/** Nodes as objects that are linked into lists (struct Node of src/include/uDepot/mbuff.hh).
    What is said of each position is a predicate of its own, which proofs name when they need it. */
module MbuffLinks {
  import opened MbuffSpec

  /** A node object: its fields, and the node that follows it. */
  class Link {
    var next: Link?
    var n: Node

    constructor (n: Node)
      ensures this.n == n
    {
      this.n, next := n, null;
    }
  }

  /** Node `i` of `ns`, or `e` behind the last. */
  function Ref(ns: seq<Link>, e: Link?, i: nat): Link? { if i < |ns| then ns[i] else e }

  ghost predicate NextIs(ns: seq<Link>, e: Link?, i: nat)
    reads ns`next
  {
    i < |ns| ==> ns[i].next == Ref(ns, e, i + 1)
  }

  /** Following the links from `h` leads through `ns` to `e`. */
  ghost predicate Runs(h: Link?, ns: seq<Link>, e: Link?)
    reads ns`next
  {
    h == Ref(ns, e, 0) && forall i: nat {:trigger NextIs(ns, e, i)} :: NextIs(ns, e, i)
  }

  ghost predicate HasFields(ns: seq<Link>, vs: seq<Node>, i: nat)
    reads ns`n
  {
    i < |ns| && i < |vs| ==> ns[i].n == vs[i]
  }

  /** The nodes have the fields `vs`. */
  ghost predicate Carries(ns: seq<Link>, vs: seq<Node>)
    reads ns`n
  {
    |ns| == |vs| && forall i: nat {:trigger HasFields(ns, vs, i)} :: HasFields(ns, vs, i)
  }

  predicate Differ(ns: seq<Link>, i: nat, ms: seq<Link>, j: nat) { i < |ns| && j < |ms| ==> ns[i] != ms[j] }

  ghost predicate Distinct(ns: seq<Link>) {
    forall i: nat, j: nat {:trigger Differ(ns, i, ns, j)} :: i != j ==> Differ(ns, i, ns, j)
  }

  ghost predicate Apart(ns: seq<Link>, ms: seq<Link>) {
    forall i: nat, j: nat {:trigger Differ(ns, i, ms, j)} :: Differ(ns, i, ms, j)
  }

  ghost predicate Within(ns: seq<Link>, repr: set<Link>) { forall x :: x in ns ==> x in repr }

  /** The nodes of the two lists and of `loose` are among `repr`, and all of them are different. */
  ghost predicate Owns(repr: set<Link>, links: seq<Link>, frees: seq<Link>, loose: seq<Link>) {
    && Within(links, repr) && Within(frees, repr) && Within(loose, repr)
    && Distinct(links) && Distinct(frees) && Distinct(loose)
    && Apart(links, frees) && Apart(links, loose) && Apart(frees, loose)
  }

  // ---------------------------------------------------------------- one list

  lemma RunsCons(x: Link, h: Link?, ns: seq<Link>, e: Link?)
    requires Runs(h, ns, e) && x.next == h
    ensures Runs(x, [x] + ns, e)
  {
    forall i: nat ensures NextIs([x] + ns, e, i) {
      assert i > 0 ==> NextIs(ns, e, i - 1);
    }
  }

  lemma RunsTail(h: Link, ns: seq<Link>, e: Link?)
    requires Runs(h, ns, e) && ns != []
    ensures h == ns[0] && Runs(h.next, ns[1..], e)
  {
    assert NextIs(ns, e, 0);
    forall i: nat ensures NextIs(ns[1..], e, i) {
      assert NextIs(ns, e, i + 1);
    }
  }

  lemma RunsSnoc(h: Link?, ns: seq<Link>, x: Link)
    requires Runs(h, ns, x)
    ensures Runs(h, ns + [x], x.next)
  {
    forall i: nat ensures NextIs(ns + [x], x.next, i) {
      assert NextIs(ns, x, i);
    }
  }

  lemma RunsSplit(h: Link?, ns: seq<Link>, e: Link?, k: nat)
    requires Runs(h, ns, e) && k <= |ns|
    ensures Runs(h, ns[..k], Ref(ns, e, k)) && Runs(Ref(ns, e, k), ns[k..], e)
  {
    forall i: nat ensures NextIs(ns[..k], Ref(ns, e, k), i) {
      assert NextIs(ns, e, i);
    }
    forall i: nat ensures NextIs(ns[k..], e, i) {
      assert NextIs(ns, e, k + i);
    }
  }

  /** The last node gets another successor. */
  method SetEnd(t: Link, e: Link?, ghost h: Link?, ghost ns: seq<Link>)
    requires Runs(h, ns, t.next) && Distinct(ns) && ns != [] && t == ns[|ns| - 1]
    modifies t`next
    ensures Runs(h, ns, e) && t.next == e
  {
    ghost var was := t.next;
    t.next := e;
    forall i: nat ensures NextIs(ns, e, i) {
      assert old(NextIs(ns, was, i));
      assert i != |ns| - 1 ==> Differ(ns, i, ns, |ns| - 1);
    }
  }

  lemma CarriesCons(x: Link, ns: seq<Link>, vs: seq<Node>)
    requires Carries(ns, vs)
    ensures Carries([x] + ns, [x.n] + vs) && Carries(ns + [x], vs + [x.n])
  {
    forall i: nat ensures HasFields([x] + ns, [x.n] + vs, i) && HasFields(ns + [x], vs + [x.n], i) {
      assert HasFields(ns, vs, i) && (i > 0 ==> HasFields(ns, vs, i - 1));
    }
  }

  lemma CarriesSplit(ns: seq<Link>, vs: seq<Node>, k: nat)
    requires Carries(ns, vs) && k <= |ns|
    ensures Carries(ns[..k], vs[..k]) && Carries(ns[k..], vs[k..])
  {
    forall i: nat ensures HasFields(ns[..k], vs[..k], i) && HasFields(ns[k..], vs[k..], i) {
      assert HasFields(ns, vs, i) && HasFields(ns, vs, k + i);
    }
  }

  /** Node `k` gets other fields. */
  method SetFields(x: Link, n: Node, ghost ns: seq<Link>, ghost vs: seq<Node>, ghost k: nat)
    requires Carries(ns, vs) && Distinct(ns) && k < |ns| && x == ns[k]
    modifies x`n
    ensures Carries(ns, vs[k := n]) && x.n == n
  {
    x.n := n;
    ghost var ws := vs[k := n];
    forall i: nat ensures HasFields(ns, ws, i) {
      assert old(HasFields(ns, vs, i));
      assert i != k ==> Differ(ns, i, ns, k);
    }
  }

  // ---------------------------------------------------------------- all lists

  /** A node among those of `ms` is none of those of `ns`. */
  lemma NotIn(ns: seq<Link>, ms: seq<Link>, j: nat)
    requires Apart(ns, ms) && j < |ms|
    ensures ms[j] !in ns
  {
    forall i | 0 <= i < |ns| ensures ns[i] != ms[j] {
      assert Differ(ns, i, ms, j);
    }
  }

  lemma NotInOther(ns: seq<Link>, ms: seq<Link>, i: nat)
    requires Apart(ns, ms) && i < |ns|
    ensures ns[i] !in ms
  {
    forall j | 0 <= j < |ms| ensures ns[i] != ms[j] {
      assert Differ(ns, i, ms, j);
    }
  }

  /** The first of the loose nodes is in neither list, and may join one of them at either end. */
  lemma OwnsLoose(repr: set<Link>, links: seq<Link>, frees: seq<Link>, x: Link, loose: seq<Link>)
    requires Owns(repr, links, frees, [x] + loose)
    ensures x in repr && x !in links && x !in frees && x !in loose
    ensures Owns(repr, [x] + links, frees, loose) && Owns(repr, links + [x], frees, loose)
    ensures Owns(repr, links, [x] + frees, loose)
  {
    var all := [x] + loose;
    assert all[0] in repr;
    NotIn(links, all, 0);
    NotIn(frees, all, 0);
    LooseFirst(x, loose);
    LooseWithin(repr, links, x, loose);
    LooseWithin(repr, frees, x, loose);
    LooseApart(links, x, loose);
    LooseApart(frees, x, loose);
    AppendApart(links, frees, x);
    AppendApart(links, loose, x);
    PrependApart(links, frees, x);
    PrependApart(links, loose, x);
    PrependApart(frees, loose, x);
    ApartPrepend(links, frees, x);
  }

  lemma LooseFirst(x: Link, loose: seq<Link>)
    requires Distinct([x] + loose)
    ensures Distinct(loose) && x !in loose
  {
    var all := [x] + loose;
    forall i: nat, j: nat | i != j ensures Differ(loose, i, loose, j) {
      assert Differ(all, i + 1, all, j + 1);
    }
    forall i | 0 <= i < |loose| ensures loose[i] != x {
      assert Differ(all, 0, all, i + 1);
    }
  }

  lemma LooseWithin(repr: set<Link>, ns: seq<Link>, x: Link, loose: seq<Link>)
    requires Within(ns, repr) && Within([x] + loose, repr)
    ensures Within(loose, repr) && Within([x] + ns, repr) && Within(ns + [x], repr)
  {
    var all := [x] + loose;
    assert all[0] == x && forall y :: y in loose ==> y in all;
  }

  lemma LooseApart(ns: seq<Link>, x: Link, loose: seq<Link>)
    requires Apart(ns, [x] + loose) && Distinct(ns)
    ensures Apart(ns, loose) && Distinct([x] + ns) && Distinct(ns + [x])
  {
    var all := [x] + loose;
    NotIn(ns, all, 0);
    forall i: nat, j: nat ensures Differ(ns, i, loose, j) {
      assert Differ(ns, i, all, j + 1);
    }
    forall i: nat, j: nat | i != j ensures Differ([x] + ns, i, [x] + ns, j) && Differ(ns + [x], i, ns + [x], j) {
      assert Differ(ns, i, ns, j) && (i > 0 && j > 0 ==> Differ(ns, i - 1, ns, j - 1));
    }
  }

  lemma AppendApart(ns: seq<Link>, ms: seq<Link>, x: Link)
    requires Apart(ns, ms) && x !in ms
    ensures Apart(ns + [x], ms)
  {
    forall i: nat, j: nat ensures Differ(ns + [x], i, ms, j) {
      assert Differ(ns, i, ms, j);
    }
  }

  lemma PrependApart(ns: seq<Link>, ms: seq<Link>, x: Link)
    requires Apart(ns, ms) && x !in ms
    ensures Apart([x] + ns, ms)
  {
    forall i: nat, j: nat ensures Differ([x] + ns, i, ms, j) {
      assert i > 0 ==> Differ(ns, i - 1, ms, j);
    }
  }

  lemma ApartPrepend(ns: seq<Link>, ms: seq<Link>, x: Link)
    requires Apart(ns, ms) && x !in ns
    ensures Apart(ns, [x] + ms)
  {
    forall i: nat, j: nat ensures Differ(ns, i, [x] + ms, j) {
      assert j > 0 ==> Differ(ns, i, ms, j - 1);
    }
  }

  /** A new node is loose. */
  lemma OwnsMore(repr: set<Link>, links: seq<Link>, frees: seq<Link>, x: Link)
    requires Within(links, repr) && Within(frees, repr) && x in repr && x !in links && x !in frees
    requires Owns(repr, links, frees, [])
    ensures Owns(repr, links, frees, [x])
  {
  }

  /** A loose node may be forgotten. */
  lemma OwnsLess(repr: set<Link>, links: seq<Link>, frees: seq<Link>, x: Link)
    requires Owns(repr, links, frees, [x])
    ensures Owns(repr, links, frees, [])
  {
  }

  /** The nodes from `k` on come loose. */
  lemma OwnsSplit(repr: set<Link>, links: seq<Link>, frees: seq<Link>, k: nat)
    requires Owns(repr, links, frees, []) && k <= |links|
    ensures Owns(repr, links[..k], frees, links[k..])
  {
    forall i: nat, j: nat
      ensures i != j ==> Differ(links[..k], i, links[..k], j) && Differ(links[k..], i, links[k..], j)
      ensures Differ(links[..k], i, links[k..], j) && Differ(links[..k], i, frees, j) && Differ(frees, i, links[k..], j)
    {
      assert i != j ==> Differ(links, i, links, j) && Differ(links, k + i, links, k + j);
      assert (i < k ==> Differ(links, i, links, k + j)) && Differ(links, i, frees, j) && Differ(links, k + j, frees, i);
    }
  }

  /** The first node comes loose. */
  lemma OwnsHead(repr: set<Link>, links: seq<Link>, frees: seq<Link>)
    requires Owns(repr, links, frees, []) && links != []
    ensures Owns(repr, links[1..], frees, [links[0]])
  {
    forall i: nat, j: nat
      ensures i != j ==> Differ(links[1..], i, links[1..], j) && Differ([links[0]], i, [links[0]], j)
      ensures Differ(links[1..], i, frees, j) && Differ(links[1..], i, [links[0]], j) && Differ(frees, i, [links[0]], j)
    {
      assert (i != j ==> Differ(links, i + 1, links, j + 1)) && Differ(links, i + 1, frees, j);
      assert Differ(links, i + 1, links, 0) && Differ(links, 0, frees, i);
    }
  }

  /** The first free node comes loose. */
  lemma OwnsFree(repr: set<Link>, links: seq<Link>, frees: seq<Link>)
    requires Owns(repr, links, frees, []) && frees != []
    ensures Owns(repr, links, frees[1..], [frees[0]])
  {
    forall i: nat, j: nat
      ensures i != j ==> Differ(frees[1..], i, frees[1..], j) && Differ([frees[0]], i, [frees[0]], j)
      ensures Differ(links, i, frees[1..], j) && Differ(links, i, [frees[0]], j) && Differ(frees[1..], i, [frees[0]], j)
    {
      assert (i != j ==> Differ(frees, i + 1, frees, j + 1)) && Differ(links, i, frees, j + 1);
      assert Differ(links, i, frees, 0) && Differ(frees, i + 1, frees, 0);
    }
  }
}
