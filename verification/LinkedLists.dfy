/** efilink.h and RtConvertList of runtime/vm.c: circular doubly linked lists threaded through memory. */
module LinkedLists {
  import opened Basics

  type Address = nat

  // ------------------------------------------------------------------------------------- rings

  function Next(i: nat, n: nat): (k: nat)
    requires i < n
    ensures k < n
  {
    if i + 1 == n then 0 else i + 1
  }

  function Prev(i: nat, n: nat): (k: nat)
    requires i < n
    ensures k < n && Next(k, n) == i
  {
    if i == 0 then n - 1 else i - 1
  }

  /** `a` points forward to `b`, and `b` back to `a`. */
  predicate Linked(flink: map<Address, Address>, blink: map<Address, Address>, a: Address, b: Address) {
    a in flink && b in blink && flink[a] == b && blink[b] == a
  }

  /** The nodes of `s`, in this order and from the last back to the first, are linked both ways. */
  predicate Ring(flink: map<Address, Address>, blink: map<Address, Address>, s: seq<Address>) {
    && s != []
    && Distinct(s)
    && (forall i :: 0 <= i < |s| ==> Linked(flink, blink, s[i], s[Next(i, |s|)]))
  }

  /** What a ring is, link by link. */
  lemma RingLinks(flink: map<Address, Address>, blink: map<Address, Address>, s: seq<Address>)
    requires s != [] && forall i :: 0 <= i < |s| ==> s[i] in flink && s[i] in blink
    ensures Ring(flink, blink, s) <==>
      && (forall i, j :: 0 <= i < j < |s| ==> s[i] != s[j])
      && (forall i :: 0 <= i < |s| - 1 ==> flink[s[i]] == s[i + 1])
      && (forall i :: 0 < i < |s| ==> blink[s[i]] == s[i - 1])
      && flink[s[|s| - 1]] == s[0] && blink[s[0]] == s[|s| - 1]
  {
    var n := |s|;
    if Ring(flink, blink, s) {
      forall i | 0 <= i < n
        ensures flink[s[i]] == s[if i == n - 1 then 0 else i + 1] && blink[s[i]] == s[if i == 0 then n - 1 else i - 1]
      {
        LinksAt(flink, blink, s, i);
      }
    } else if forall i, j :: 0 <= i < j < n ==> s[i] != s[j] {
      var i :| 0 <= i < n && !Linked(flink, blink, s[i], s[Next(i, n)]);
      assert i < n - 1 ==> Next(i, n) == i + 1;
    }
  }

  /** A head determines its ring, so the sequence is the abstract value of the list. */
  lemma RingUnique(flink: map<Address, Address>, blink: map<Address, Address>, s: seq<Address>, t: seq<Address>)
    requires Ring(flink, blink, s) && Ring(flink, blink, t) && s[0] == t[0]
    ensures s == t
  {
    if |s| <= |t| {
      SameFromHead(flink, blink, s, t, |s| - 1);
    } else {
      SameFromHead(flink, blink, t, s, |t| - 1);
    }
  }

  lemma {:induction false} SameFromHead(flink: map<Address, Address>, blink: map<Address, Address>,
                                        s: seq<Address>, t: seq<Address>, k: nat)
    requires Ring(flink, blink, s) && Ring(flink, blink, t) && s[0] == t[0] && k < |s| <= |t|
    ensures forall i :: 0 <= i <= k ==> s[i] == t[i]
    ensures k == |s| - 1 ==> |s| == |t|
  {
    if k > 0 {
      SameFromHead(flink, blink, s, t, k - 1);
      assert Linked(flink, blink, s[k - 1], s[Next(k - 1, |s|)]);
      assert Linked(flink, blink, t[k - 1], t[Next(k - 1, |t|)]);
    }
    assert Linked(flink, blink, s[k], s[Next(k, |s|)]) && Linked(flink, blink, t[k], t[Next(k, |t|)]);
  }

  lemma LinksAt(flink: map<Address, Address>, blink: map<Address, Address>, s: seq<Address>, i: nat)
    requires Ring(flink, blink, s) && i < |s|
    ensures s[i] in flink && flink[s[i]] == s[Next(i, |s|)]
    ensures s[i] in blink && blink[s[i]] == s[Prev(i, |s|)]
  {
    assert Linked(flink, blink, s[i], s[Next(i, |s|)]);
    assert Linked(flink, blink, s[Prev(i, |s|)], s[Next(Prev(i, |s|), |s|)]);
  }

  /** A ring has no first node. */
  lemma RotateRing(flink: map<Address, Address>, blink: map<Address, Address>, s: seq<Address>, k: nat)
    requires Ring(flink, blink, s) && k < |s|
    ensures Ring(flink, blink, s[k..] + s[..k])
  {
    var t, n := s[k..] + s[..k], |s|;
    forall i | 0 <= i < n ensures Linked(flink, blink, t[i], t[Next(i, n)]) {
      var j := if i + k < n then i + k else i + k - n;
      assert t[i] == s[j] && t[Next(i, n)] == s[Next(j, n)];
    }
  }

  lemma SelfLinkedAlone(flink: map<Address, Address>, blink: map<Address, Address>, t: seq<Address>, e: Address)
    requires e in flink && flink[e] == e && e in t
    ensures Ring(flink, blink, t) ==> t == [e]
  {
    if Ring(flink, blink, t) {
      var i :| 0 <= i < |t| && t[i] == e;
      LinksAt(flink, blink, t, i);
    }
  }

  lemma OnlyAlone(flink: map<Address, Address>, blink: map<Address, Address>, e: Address)
    requires e in flink && flink[e] == e
    ensures forall t :: Ring(flink, blink, t) && e in t ==> t == [e]
  {
    hide Ring;
    forall t | Ring(flink, blink, t) && e in t
      ensures t == [e]
    {
      SelfLinkedAlone(flink, blink, t, e);
    }
  }

  function Delete(s: seq<Address>, i: nat): seq<Address>
    requires i < |s|
  {
    s[..i] + s[i + 1..]
  }

  function InsertAt(s: seq<Address>, i: nat, a: Address): seq<Address>
    requires i <= |s|
  {
    s[..i] + [a] + s[i..]
  }

  /** `s` with its j-th node moved to just before its i-th. */
  function MoveBefore(s: seq<Address>, i: nat, j: nat): seq<Address>
    requires i < |s| && j < |s| && i != j
  {
    InsertAt(Delete(s, j), if j < i then i - 1 else i, s[j])
  }

  /** The node moved stands in front of the other, and the rest is as it was without it. */
  lemma MovedBefore(s: seq<Address>, i: nat, j: nat)
    requires i < |s| && j < |s| && i != j
    ensures var t, k := MoveBefore(s, i, j), if j < i then i - 1 else i;
      |t| == |s| && k < |t| - 1 && t[k] == s[j] && t[k + 1] == s[i] && t[..k] + t[k + 1..] == s[..j] + s[j + 1..]
  {
    var t, k := MoveBefore(s, i, j), if j < i then i - 1 else i;
    var rest := s[..j] + s[j + 1..];
    assert rest[k] == s[i] && t[..k] == rest[..k] && t[k + 1..] == rest[k..];
  }

  lemma TailInserted(flink: map<Address, Address>, blink: map<Address, Address>, s: seq<Address>, e: Address)
    requires Ring(flink, blink, s) && e !in s
    ensures Ring(flink[e := s[0]][s[|s| - 1] := e], blink[e := s[|s| - 1]][s[0] := e], s + [e])
  {
    var n, t := |s|, s + [e];
    var f, b := flink[e := s[0]][s[n - 1] := e], blink[e := s[n - 1]][s[0] := e];
    forall i | 0 <= i < n + 1 ensures Linked(f, b, t[i], t[Next(i, n + 1)]) {
      if i < n {
        assert Linked(flink, blink, s[i], s[Next(i, n)]);
      }
    }
  }

  lemma FirstRemoved(flink: map<Address, Address>, blink: map<Address, Address>, s: seq<Address>)
    requires Ring(flink, blink, s) && |s| > 1
    ensures Ring(flink[s[|s| - 1] := s[1]], blink[s[1] := s[|s| - 1]], s[1..])
  {
    var n, t := |s|, s[1..];
    var f, b := flink[s[n - 1] := s[1]], blink[s[1] := s[n - 1]];
    forall i | 0 <= i < n - 1 ensures Linked(f, b, t[i], t[Next(i, n - 1)]) {
      assert Linked(flink, blink, s[i + 1], s[Next(i + 1, n)]);
    }
  }

  lemma Removed(flink: map<Address, Address>, blink: map<Address, Address>, s: seq<Address>, i: nat)
    requires Ring(flink, blink, s) && |s| > 1 && i < |s|
    ensures var p, q := s[Prev(i, |s|)], s[Next(i, |s|)];
      Ring(flink[p := q], blink[q := p], Delete(s, i))
  {
    var p, q := s[Prev(i, |s|)], s[Next(i, |s|)];
    var t := s[i..] + s[..i];
    RotateRing(flink, blink, s, i);
    FirstRemoved(flink, blink, t);
    assert t[1] == q && t[|t| - 1] == p;
    var k := |s| - i - 1;
    if i > 0 {
      RotateRing(flink[p := q], blink[q := p], t[1..], k);
    }
    assert t[1..][k..] + t[1..][..k] == Delete(s, i);
  }

  lemma InsertedBefore(flink: map<Address, Address>, blink: map<Address, Address>, s: seq<Address>, i: nat, e: Address)
    requires Ring(flink, blink, s) && i < |s| && e !in s
    ensures var p, q := s[Prev(i, |s|)], s[i];
      Ring(flink[e := q][p := e], blink[e := p][q := e], InsertAt(s, i, e))
  {
    var p, q := s[Prev(i, |s|)], s[i];
    var t := s[i..] + s[..i];
    RotateRing(flink, blink, s, i);
    TailInserted(flink, blink, t, e);
    assert t[0] == q && t[|t| - 1] == p;
    var k := |s| - i;
    if i == 0 {
      RotateRing(flink[e := q][p := e], blink[e := p][q := e], t + [e], k);
    } else {
      RotateRing(flink[e := q][p := e], blink[e := p][q := e], t + [e], k);
    }
    assert (t + [e])[k..] + (t + [e])[..k] == InsertAt(s, i, e);
  }

  // --------------------------------------------------------------------- moving one node elsewhere

  predicate Links(links: map<Address, Address>, a: Address, b: Address) { a in links && links[a] == b }

  /** The links SwapListEntries leaves. */
  function SwappedFlink(flink: map<Address, Address>, blink: map<Address, Address>, e1: Address, e2: Address)
    : map<Address, Address>
    requires e1 in blink && e2 in flink && e2 in blink
  {
    flink[blink[e2] := flink[e2]][e2 := e1][blink[e1] := e2]
  }

  function SwappedBlink(flink: map<Address, Address>, blink: map<Address, Address>, e1: Address, e2: Address)
    : map<Address, Address>
    requires e1 in blink && e2 in flink && e2 in blink
  {
    blink[flink[e2] := blink[e2]][e2 := blink[e1]][e1 := e2]
  }

  /** `e` points to itself; going forward the others are a ring without it, and going back too, but for
      `first`, which points back to `e`. */
  predicate CutOff(flink: map<Address, Address>, blink: map<Address, Address>, others: seq<Address>,
                   first: Address, e: Address)
  {
    && Links(flink, e, e) && Links(blink, e, e) && Links(blink, first, e)
    && first in others && e !in others && Distinct(others)
    && (forall k :: 0 <= k < |others| ==> Links(flink, others[k], others[Next(k, |others|)]))
    && (forall k :: 0 <= k < |others| && others[k] != first ==> Links(blink, others[k], others[Prev(k, |others|)]))
  }

  /** `s[i]` points to itself both ways; the node before it still points to it, and the node behind it
      points back past it. */
  predicate Entangled(flink: map<Address, Address>, blink: map<Address, Address>, s: seq<Address>, i: nat)
    requires i < |s|
  {
    var p, q := s[Prev(i, |s|)], s[Next(i, |s|)];
    Links(flink, s[i], s[i]) && Links(blink, s[i], s[i]) && Links(flink, p, s[i]) && Links(blink, q, p)
  }

  lemma SwapMoves(flink: map<Address, Address>, blink: map<Address, Address>, s: seq<Address>, i: nat, j: nat)
    requires Ring(flink, blink, s) && i < |s| && j < |s| && i != j && j != Prev(i, |s|)
    ensures s[i] in blink && s[j] in flink && s[j] in blink
    ensures Ring(SwappedFlink(flink, blink, s[i], s[j]), SwappedBlink(flink, blink, s[i], s[j]), MoveBefore(s, i, j))
  {
    LinksAt(flink, blink, s, i);
    LinksAt(flink, blink, s, j);
    Removed(flink, blink, s, j);
    var p, q := s[Prev(j, |s|)], s[Next(j, |s|)];
    var k, t := if j < i then i - 1 else i, Delete(s, j);
    assert t[k] == s[i] && s[j] !in t;
    LinksAt(flink[p := q], blink[q := p], t, k);
    InsertedBefore(flink[p := q], blink[q := p], t, k, s[j]);
  }

  lemma SwapNeighbours(flink: map<Address, Address>, blink: map<Address, Address>, s: seq<Address>, i: nat, j: nat)
    requires Ring(flink, blink, s) && i < |s| && i != j && j == Prev(i, |s|)
    ensures s[i] in blink && s[j] in flink && s[j] in blink
    ensures var f, b := SwappedFlink(flink, blink, s[i], s[j]), SwappedBlink(flink, blink, s[i], s[j]);
      CutOff(f, b, Delete(s, j), s[i], s[j]) && !Ring(f, b, MoveBefore(s, i, j))
  {
    hide Ring, Prev, Next, CutOff;
    LinksAt(flink, blink, s, i);
    LinksAt(flink, blink, s, j);
    NextOfPrev(i, |s|);
    Removed(flink, blink, s, j);
    Deleted(flink, blink, s, i, j);
    var p := s[Prev(j, |s|)];
    var f, b := SwappedFlink(flink, blink, s[i], s[j]), SwappedBlink(flink, blink, s[i], s[j]);
    CutOffFrom(flink, blink, Delete(s, j), p, s[i], s[j], f, b);
    SelfLinkedAlone(f, b, MoveBefore(s, i, j), s[j]);
  }

  lemma NextOfPrev(i: nat, n: nat)
    requires i < n
    ensures Next(Prev(i, n), n) == i
  {
  }

  lemma Deleted(flink: map<Address, Address>, blink: map<Address, Address>, s: seq<Address>, i: nat, j: nat)
    requires Ring(flink, blink, s) && i < |s| && j < |s| && i != j
    ensures s[i] in Delete(s, j) && s[j] !in Delete(s, j) && s[j] in MoveBefore(s, i, j) && |MoveBefore(s, i, j)| > 1
    ensures s[Prev(j, |s|)] != s[j]
  {
    assert Delete(s, j)[if j < i then i - 1 else i] == s[i];
    assert MoveBefore(s, i, j)[if j < i then i - 1 else i] == s[j];
  }

  /** The ring without `e`, and `e` linked to itself in front of `first`. */
  lemma CutOffFrom(flink: map<Address, Address>, blink: map<Address, Address>, t: seq<Address>, p: Address,
                   first: Address, e: Address, f: map<Address, Address>, b: map<Address, Address>)
    requires Ring(flink[p := first], blink[first := p], t) && first in t && e !in t && p != e && first != e
    requires f == flink[p := first][e := first][e := e] && b == blink[first := p][e := e][first := e]
    ensures CutOff(f, b, t, first, e)
  {
    var n := |t|;
    forall k | 0 <= k < n
      ensures Links(f, t[k], t[Next(k, n)]) && (t[k] != first ==> Links(b, t[k], t[Prev(k, n)]))
    {
      LinksAt(flink[p := first], blink[first := p], t, k);
    }
  }

  lemma SwapAlone(flink: map<Address, Address>, blink: map<Address, Address>, s: seq<Address>, i: nat)
    requires Ring(flink, blink, s) && i < |s|
    ensures s[i] in blink && s[i] in flink
    ensures Entangled(SwappedFlink(flink, blink, s[i], s[i]), SwappedBlink(flink, blink, s[i], s[i]), s, i)
  {
    LinksAt(flink, blink, s, i);
  }

  // ---------------------------------------------------------------------------- the list macros

  datatype Field = Flink | Blink

  /** One call of the firmware's ConvertPointer: its disposition and the field it rewrote. */
  datatype Conversion = Conversion(disposition: nat, node: Address, field: Field)

  /** Node `i` holds the converted addresses of its two neighbours. */
  predicate ConvertedAt(flink: map<Address, Address>, blink: map<Address, Address>, s: seq<Address>,
                        conv: Address -> Address, i: nat)
    requires i < |s|
  {
    && s[i] in flink && flink[s[i]] == conv(s[Next(i, |s|)])
    && s[i] in blink && blink[s[i]] == conv(s[Prev(i, |s|)])
  }

  predicate Converted(flink: map<Address, Address>, blink: map<Address, Address>, s: seq<Address>,
                      conv: Address -> Address)
  {
    forall i :: 0 <= i < |s| ==> ConvertedAt(flink, blink, s, conv, i)
  }

  predicate StillLinked(flink: map<Address, Address>, blink: map<Address, Address>, s: seq<Address>, i: nat)
    requires i < |s|
  {
    && s[i] in flink && flink[s[i]] == s[Next(i, |s|)]
    && s[i] in blink && blink[s[i]] == s[Prev(i, |s|)]
  }

  /** The first `k` nodes are converted, the others as they were. */
  predicate Walked(flink: map<Address, Address>, blink: map<Address, Address>, s: seq<Address>,
                   conv: Address -> Address, k: nat)
    requires k <= |s|
  {
    && (forall i :: 0 <= i < k ==> ConvertedAt(flink, blink, s, conv, i))
    && (forall i :: k <= i < |s| ==> StillLinked(flink, blink, s, i))
  }

  lemma ConvertOne(flink: map<Address, Address>, blink: map<Address, Address>, s: seq<Address>,
                   conv: Address -> Address, k: nat)
    requires Distinct(s) && k < |s| && Walked(flink, blink, s, conv, k)
    ensures s[k] in flink && flink[s[k]] == s[Next(k, |s|)] && (flink[s[k]] == s[0] <==> k + 1 == |s|)
    ensures s[k] in blink && blink[s[k]] == s[Prev(k, |s|)] && (blink[s[k]] == s[0] <==> Prev(k, |s|) == 0)
    ensures Walked(flink[s[k] := conv(flink[s[k]])], blink[s[k] := conv(blink[s[k]])], s, conv, k + 1)
  {
    assert StillLinked(flink, blink, s, k);
    var f, b := flink[s[k] := conv(flink[s[k]])], blink[s[k] := conv(blink[s[k]])];
    forall i | 0 <= i < k + 1 ensures ConvertedAt(f, b, s, conv, i) {
      assert i < k ==> ConvertedAt(flink, blink, s, conv, i);
    }
    forall i | k + 1 <= i < |s| ensures StillLinked(f, b, s, i) {
      assert StillLinked(flink, blink, s, i);
    }
  }

  /** The conversions of the first `k` nodes in walking order: two per node, and the disposition marks
      exactly the pointers to the head. */
  function RoundTrip(disposition: nat, s: seq<Address>, k: nat): seq<Conversion>
    requires k <= |s|
  {
    if k == 0 then [] else RoundTrip(disposition, s, k - 1) + TurnCalls(disposition, s, k - 1)
  }

  function TurnCalls(disposition: nat, s: seq<Address>, k: nat): seq<Conversion>
    requires k < |s|
  {
    [Conversion(if Next(k, |s|) == 0 then disposition else 0, s[k], Flink),
     Conversion(if Prev(k, |s|) == 0 then disposition else 0, s[k], Blink)]
  }

  lemma RoundTripStep(disposition: nat, s: seq<Address>, k: nat)
    requires k < |s|
    ensures RoundTrip(disposition, s, k + 1) == RoundTrip(disposition, s, k) + TurnCalls(disposition, s, k)
    ensures RoundTrip(disposition, s, 0) == []
  {
  }

  /** Two calls for each node, forward link first; the disposition goes with the two links that lead back to the
      head, the forward link of the last node and the backward link of the one behind the head. */
  lemma {:induction false} RoundTripAt(disposition: nat, s: seq<Address>, n: nat, k: nat)
    requires k < n <= |s|
    ensures |RoundTrip(disposition, s, n)| == 2 * n
    ensures RoundTrip(disposition, s, n)[2 * k] == Conversion(if k == |s| - 1 then disposition else 0, s[k], Flink)
    ensures RoundTrip(disposition, s, n)[2 * k + 1] ==
      Conversion(if k == 1 || |s| == 1 then disposition else 0, s[k], Blink)
    decreases n
  {
    RoundTripStep(disposition, s, n - 1);
    if n > 1 {
      RoundTripAt(disposition, s, n - 1, if k == n - 1 then 0 else k);
    }
  }

  lemma WalkBegins(flink: map<Address, Address>, blink: map<Address, Address>, s: seq<Address>,
                   conv: Address -> Address, disposition: nat)
    requires Ring(flink, blink, s)
    ensures s != [] && Distinct(s) && Walked(flink, blink, s, conv, 0) && RoundTrip(disposition, s, 0) == []
  {
    forall i | 0 <= i < |s| ensures StillLinked(flink, blink, s, i) {
      LinksAt(flink, blink, s, i);
    }
  }

  lemma WalkEnds(flink: map<Address, Address>, blink: map<Address, Address>, s: seq<Address>,
                 conv: Address -> Address)
    requires Walked(flink, blink, s, conv, |s|)
    ensures Converted(flink, blink, s, conv)
  {
  }

  /** The same memory seen at its new addresses: what `a` holds is found at `conv(a)`. */
  predicate Remapped(links: map<Address, Address>, virtual: map<Address, Address>, s: seq<Address>,
                     conv: Address -> Address)
  {
    forall i :: 0 <= i < |s| ==>
      s[i] in links && conv(s[i]) in virtual && virtual[conv(s[i])] == links[s[i]]
  }

  function Image(s: seq<Address>, conv: Address -> Address): seq<Address> {
    seq(|s|, i requires 0 <= i < |s| => conv(s[i]))
  }

  /** Read at the new addresses, a converted list is the ring of the new addresses, in the same order;
      for that the conversion must keep the nodes apart, and it need do no more. */
  lemma ConvertedIsRing(flink: map<Address, Address>, blink: map<Address, Address>, s: seq<Address>,
                        conv: Address -> Address, vflink: map<Address, Address>, vblink: map<Address, Address>)
    requires s != [] && Converted(flink, blink, s, conv)
    requires Remapped(flink, vflink, s, conv) && Remapped(blink, vblink, s, conv)
    ensures Ring(vflink, vblink, Image(s, conv)) <==>
      forall i, j :: 0 <= i < j < |s| ==> conv(s[i]) != conv(s[j])
  {
    var t, n := Image(s, conv), |s|;
    forall i | 0 <= i < n ensures Linked(vflink, vblink, t[i], t[Next(i, n)]) {
      assert ConvertedAt(flink, blink, s, conv, i) && ConvertedAt(flink, blink, s, conv, Next(i, n));
    }
    if Ring(vflink, vblink, t) {
      forall i, j | 0 <= i < j < n ensures conv(s[i]) != conv(s[j]) {
        assert t[i] != t[j];
      }
    }
  }

  class Memory {
    var flink: map<Address, Address>
    var blink: map<Address, Address>
    var calls: seq<Conversion>

    /** Nodes outside `touched` keep their links. */
    twostate predicate Untouched(touched: set<Address>)
      reads this
    {
      && (forall a :: a in old(flink) && a !in touched ==> a in flink && flink[a] == old(flink)[a])
      && (forall a :: a in old(blink) && a !in touched ==> a in blink && blink[a] == old(blink)[a])
    }

    method InitializeListHead(ListHead: Address)
      modifies this`flink, this`blink
      ensures Ring(flink, blink, [ListHead]) && Untouched({ListHead})
    {
      flink := flink[ListHead := ListHead];
      blink := blink[ListHead := ListHead];
    }

    method IsListEmpty(ListHead: Address, ghost s: seq<Address>) returns (empty: bool)
      requires Ring(flink, blink, s) && s[0] == ListHead
      ensures empty <==> s[1..] == []
    {
      assert Linked(flink, blink, s[0], s[Next(0, |s|)]);
      empty := flink[ListHead] == ListHead;
    }

    /** Snoc: the new entry is the last before the head comes round again. */
    method InsertTailList(ListHead: Address, Entry: Address, ghost s: seq<Address>)
      requires Ring(flink, blink, s) && s[0] == ListHead && Entry !in s
      modifies this`flink, this`blink
      ensures Ring(flink, blink, s + [Entry]) && Untouched({Entry, ListHead, s[|s| - 1]})
    {
      LinksAt(flink, blink, s, 0);
      TailInserted(flink, blink, s, Entry);
      var listHead := ListHead;
      var back := blink[listHead];
      flink := flink[Entry := listHead];
      blink := blink[Entry := back];
      flink := flink[back := Entry];
      blink := blink[listHead := Entry];
    }

    /** Cons: the new entry is the first behind the head. */
    method InsertHeadList(ListHead: Address, Entry: Address, ghost s: seq<Address>)
      requires Ring(flink, blink, s) && s[0] == ListHead && Entry !in s
      modifies this`flink, this`blink
      ensures Ring(flink, blink, [ListHead, Entry] + s[1..])
      ensures Untouched({Entry, ListHead, s[Next(0, |s|)]})
    {
      LinksAt(flink, blink, s, 0);
      ghost var i := Next(0, |s|);
      InsertedBefore(flink, blink, s, i, Entry);
      var listHead := ListHead;
      var forw := flink[listHead];
      flink := flink[Entry := forw];
      blink := blink[Entry := listHead];
      blink := blink[forw := Entry];
      flink := flink[listHead := Entry];
      if |s| == 1 {
        RotateRing(flink, blink, InsertAt(s, i, Entry), 1);
      }
      assert [ListHead, Entry] + s[1..] ==
             if |s| == 1 then InsertAt(s, i, Entry)[1..] + InsertAt(s, i, Entry)[..1] else InsertAt(s, i, Entry);
    }

    /** Delete, anywhere in the ring; an entry alone in its ring stays so. */
    method RemoveEntryList(Entry: Address, ghost s: seq<Address>, ghost i: nat)
      requires Ring(flink, blink, s) && i < |s| && s[i] == Entry
      modifies this`flink, this`blink
      ensures Ring(flink, blink, if |s| == 1 then s else Delete(s, i))
      ensures Untouched({s[Prev(i, |s|)], s[Next(i, |s|)]})
    {
      LinksAt(flink, blink, s, i);
      if |s| > 1 {
        Removed(flink, blink, s, i);
      }
      var forw := flink[Entry];
      var back := blink[Entry];
      flink := flink[back := forw];
      blink := blink[forw := back];
    }

    /** Puts Entry2 just before Entry1, unless it already stands there or is Entry1 itself: then it is left
        pointing to itself, and the ring is only a ring without it, and only forward. */
    method SwapListEntries(Entry1: Address, Entry2: Address, ghost s: seq<Address>, ghost i: nat, ghost j: nat)
      requires Ring(flink, blink, s) && i < |s| && j < |s| && s[i] == Entry1 && s[j] == Entry2
      modifies this`flink, this`blink
      ensures i != j ==> (Ring(flink, blink, MoveBefore(s, i, j)) <==> j != Prev(i, |s|))
      ensures i != j && j == Prev(i, |s|) ==> CutOff(flink, blink, Delete(s, j), Entry1, Entry2)
      ensures i == j ==> Entangled(flink, blink, s, i)
      ensures Untouched({Entry1, Entry2, s[Prev(i, |s|)], s[Prev(j, |s|)], s[Next(j, |s|)]})
    {
      hide Ring, CutOff, Entangled, MoveBefore, Delete, Next, Prev;
      LinksAt(flink, blink, s, i);
      LinksAt(flink, blink, s, j);
      if i == j {
        SwapAlone(flink, blink, s, i);
      } else if j == Prev(i, |s|) {
        SwapNeighbours(flink, blink, s, i, j);
      } else {
        SwapMoves(flink, blink, s, i, j);
      }
      var flink2 := flink[Entry2];
      var blink2 := blink[Entry2];
      var flink1 := flink[Entry1];
      var blink1 := blink[Entry1];
      flink := flink[blink2 := flink2];
      blink := blink[flink2 := blink2];
      flink := flink[Entry2 := Entry1];
      blink := blink[Entry2 := blink1];
      flink := flink[blink1 := Entry2];
      blink := blink[Entry1 := Entry2];
    }

    /** The last two entries of a ring of three, swapped as they stand: the ring is broken. */
    method SwapNeighboursInRun(ListHead: Address, a: Address, b: Address)
      requires ListHead != a && a != b && b != ListHead
      modifies this`flink, this`blink
      ensures Links(flink, ListHead, b) && Links(flink, b, ListHead) && Links(blink, b, a) && Links(flink, a, a)
      ensures forall s :: Ring(flink, blink, s) && a in s ==> s == [a]
    {
      hide Ring;
      InitializeListHead(ListHead);
      assert [ListHead] + [a] == [ListHead, a] && [ListHead, a] + [b] == [ListHead, a, b];
      InsertTailList(ListHead, a, [ListHead]);
      InsertTailList(ListHead, b, [ListHead, a]);
      SwapListEntries(b, a, [ListHead, a, b], 2, 1);
      ghost var others := Delete([ListHead, a, b], 1);
      assert others[0] == ListHead && others[1] == b;
      assert Links(flink, others[0], others[Next(0, 2)]) && Links(flink, others[1], others[Next(1, 2)]);
      OnlyAlone(flink, blink, a);
    }

    /** The firmware service: rewrites one field to the virtual address `conv` gives it. */
    method ConvertPointer(disposition: nat, node: Address, field: Field, conv: Address -> Address)
      requires node in if field.Flink? then flink else blink
      modifies this
      ensures field.Flink? ==> flink == old(flink[node := conv(flink[node])]) && blink == old(blink)
      ensures field.Blink? ==> blink == old(blink[node := conv(blink[node])]) && flink == old(flink)
      ensures calls == old(calls) + [Conversion(disposition, node, field)]
    {
      match field {
        case Flink => flink := flink[node := conv(flink[node])];
        case Blink => blink := blink[node := conv(blink[node])];
      }
      calls := calls + [Conversion(disposition, node, field)];
    }

    method ConvertLinks(DebugDisposition: nat, ListHead: Address, Link: Address, conv: Address -> Address)
      requires Link in flink && Link in blink
      modifies this
      ensures flink == old(flink[Link := conv(flink[Link])])
      ensures blink == old(blink[Link := conv(blink[Link])])
      ensures calls == old(calls) +
        [Conversion(if old(flink[Link]) == ListHead then DebugDisposition else 0, Link, Flink)] +
        [Conversion(if old(blink[Link]) == ListHead then DebugDisposition else 0, Link, Blink)]
    {
      ConvertPointer(if flink[Link] == ListHead then DebugDisposition else 0, Link, Flink, conv);
      ConvertPointer(if blink[Link] == ListHead then DebugDisposition else 0, Link, Blink, conv);
    }

    /** Walks the ring once, by the links as they were, and converts every link of every node once. */
    method RtConvertList(DebugDisposition: nat, ListHead: Address, conv: Address -> Address, ghost s: seq<Address>)
      requires Ring(flink, blink, s) && s[0] == ListHead
      modifies this
      ensures Converted(flink, blink, s, conv)
      ensures Untouched(set a | a in s)
      ensures calls == old(calls) + RoundTrip(DebugDisposition, s, |s|)
    {
      hide Walked, Ring, StillLinked, RoundTrip, Next, Prev, Converted;
      ghost var n, before := |s|, calls;
      ghost var k := 0;
      WalkBegins(flink, blink, s, conv, DebugDisposition);
      var Link := ListHead;
      var again := true;
      while again
        invariant 0 <= k <= n && (again <==> k < n) && (again ==> Link == s[k])
        invariant Untouched(set a | a in s)
        invariant Walked(flink, blink, s, conv, k)
        invariant calls == before + RoundTrip(DebugDisposition, s, k)
        decreases n - k
      {
        Link := ConvertTurn(DebugDisposition, ListHead, Link, conv, s, k);
        RoundTripStep(DebugDisposition, s, k);
        k := k + 1;
        again := Link != ListHead;
      }
      WalkEnds(flink, blink, s, conv);
    }

    /** One node converted; the walk goes on by its link as it was. */
    method ConvertTurn(DebugDisposition: nat, ListHead: Address, Link: Address, conv: Address -> Address,
                       ghost s: seq<Address>, ghost k: nat) returns (NextLink: Address)
      requires Distinct(s) && k < |s| && s[k] == Link && s[0] == ListHead && Walked(flink, blink, s, conv, k)
      modifies this
      ensures Walked(flink, blink, s, conv, k + 1)
      ensures (NextLink != ListHead <==> k + 1 < |s|) && (k + 1 < |s| ==> NextLink == s[k + 1])
      ensures Untouched({Link}) && calls == old(calls) + TurnCalls(DebugDisposition, s, k)
    {
      hide Walked, Prev;
      ConvertOne(flink, blink, s, conv, k);
      NextLink := flink[Link];
      ConvertLinks(DebugDisposition, ListHead, Link, conv);
    }
  }
}
