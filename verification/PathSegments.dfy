/** The in-place walk of RemoveDotSegmentsEx over the linked path segments of a URI. */
module PathSegments {
  import opened Collections
  import opened DotSegments

  class PathSegment {
    var text: string
    var next: PathSegment?
    var reserved: PathSegment?  // the previous segment, during the walk

    constructor (text: string)
      ensures this.text == text && next == null && reserved == null
    {
      this.text, next, reserved := text, null, null;
    }
  }

  /** The neighbours of an entry after those from a up to b are cut out. */
  lemma AtCut(was: seq<PathSegment>, a: nat, b: nat, i: nat)
    requires a <= b <= |was| && i < a + |was| - b
    ensures var now, j := was[..a] + was[b..], if i < a then i else i + b - a;
      && now[i] == was[j]
      && At(now, i + 1, null) == (if j == a - 1 then At(was, b, null) else At(was, j + 1, null))
      && At(now, i - 1, null) == if j == b then At(was, a - 1, null) else At(was, j - 1, null)
  {}

  lemma CutApart(was: seq<PathSegment>, a: nat, b: nat)
    requires NoDup(was) && a <= b <= |was|
    ensures NoDup(was[..a] + was[b..]) && forall j :: a <= j < b ==> was[j] !in was[..a] + was[b..]
  {}

  lemma CutMembers(was: seq<PathSegment>, a: nat, b: nat)
    requires a <= b <= |was|
    ensures forall node :: node in was[..a] + was[b..] ==> node in was
    ensures forall node :: node in was ==> node in was[..a] + was[b..] || node in was[a..b]
  {
    assert was == was[..a] + was[a..b] + was[b..];
  }

  lemma CutNext(was: seq<PathSegment>, a: nat, b: nat, now: seq<PathSegment>)
    requires a < b < |was| && now == was[..a] + was[b..]
    requires forall j {:trigger was[j].next} :: 0 <= j < |was| && (j < a || b <= j) ==>
      was[j].next == if j == a - 1 then was[b] else At(was, j + 1, null)
    ensures forall i {:trigger now[i].next} :: 0 <= i < |now| ==> now[i].next == At(now, i + 1, null)
  {
    forall i | 0 <= i < |now| ensures now[i].next == At(now, i + 1, null) {
      AtCut(was, a, b, i);
      var j := if i < a then i else i + b - a;
      assert was[j].next == if j == a - 1 then was[b] else At(was, j + 1, null);
    }
  }

  lemma CutReserved(was: seq<PathSegment>, a: nat, b: nat, now: seq<PathSegment>)
    requires a < b < |was| && now == was[..a] + was[b..]
    requires forall j {:trigger was[j].reserved} :: 0 <= j < a ==> was[j].reserved == At(was, j - 1, null)
    requires was[b].reserved == At(was, a - 1, null)
    ensures forall i {:trigger now[i].reserved} :: 0 <= i <= a ==> now[i].reserved == At(now, i - 1, null)
  {
    forall i | 0 <= i <= a ensures now[i].reserved == At(now, i - 1, null) {
      AtCut(was, a, b, i);
      if i < a { assert was[i].reserved == At(was, i - 1, null); }
    }
  }

  lemma CutTexts(was: seq<PathSegment>, texts: seq<string>, a: nat, b: nat, now: seq<PathSegment>, rest: seq<string>)
    requires a < b < |was| == |texts| && now == was[..a] + was[b..] && rest == texts[..a] + texts[b..]
    requires forall i :: 0 <= i < |was| ==> was[i].text == texts[i]
    ensures forall i :: 0 <= i < |now| ==> now[i].text == rest[i]
  {
    forall i | 0 <= i < |now| ensures now[i].text == rest[i] {
      var j := if i < a then i else i + b - a;
      assert now[i] == was[j] && rest[i] == texts[j];
    }
  }

  lemma CutWithin(was: seq<PathSegment>, a: nat, b: nat, now: seq<PathSegment>)
    requires a < b < |was| && now == was[..a] + was[b..]
    ensures now[|now| - 1] == was[|was| - 1] && now[0] == (if a == 0 then was[b] else was[0])
    ensures forall i :: 0 <= i < |now| ==> now[i] in was
  {}

  // ----- one round, on sequences

  /** What a round does to the texts behind the walker, at i before and at j afterwards, and in front of it. */
  ghost predicate Stepped(was: seq<string>, i: nat, now: seq<string>, j: nat, hostSet: bool) {
    && i < |was| && j <= |now|
    && now[..j] == Step(was[..i], was[i], i + 1 == |was|, hostSet)
    && now[j..] == was[i + 1..]
  }

  lemma SteppedDot(was: seq<string>, i: nat, hostSet: bool)
    requires i + 1 < |was| && was[i] == "."
    ensures Stepped(was, i, was[..i] + was[i + 1..], i, hostSet)
  {}

  lemma SteppedLastDot(was: seq<string>, i: nat, hostSet: bool)
    requires i + 1 == |was| && was[i] == "."
    ensures i == 0 && !hostSet ==> Stepped(was, i, [], 0, hostSet)
    ensures i > 0 || hostSet ==> Stepped(was, i, was[i := ""], i + 1, hostSet)
  {}

  lemma SteppedOther(was: seq<string>, i: nat, hostSet: bool)
    requires i < |was| && !IsDots(was[i])
    ensures Stepped(was, i, was, i + 1, hostSet)
  {}

  lemma SteppedFirst(was: seq<string>, hostSet: bool)
    requires was != [] && was[0] == ".."
    ensures Stepped(was, 0, was[1..], 0, hostSet)
  {}

  lemma SteppedPair(was: seq<string>, i: nat, hostSet: bool)
    requires 1 <= i && i + 1 < |was| && was[i] == ".."
    ensures Stepped(was, i, was[..i - 1] + was[i + 1..], i - 1, hostSet)
  {
    assert Pop(was[..i]) == was[..i - 1];
  }

  lemma SteppedLast(was: seq<string>, i: nat, hostSet: bool)
    requires 1 <= i && i + 1 == |was| && was[i] == ".."
    ensures Stepped(was, i, was[..i - 1] + [""], i, hostSet)
  {
    assert Pop(was[..i]) == was[..i - 1];
  }

  /** Every segment that was in the list still is, or was freed. */
  ghost predicate Accounted(was: seq<PathSegment>, now: seq<PathSegment>, freed: set<PathSegment>) {
    forall node :: node in was ==> node in now || node in freed
  }

  class Uri {
    var pathHead: PathSegment?
    var pathTail: PathSegment?
    const hostSet: bool
    ghost var nodes: seq<PathSegment>  // the list from head to tail
    ghost var texts: seq<string>       // its texts
    ghost var at: nat                  // how many segments are behind the walker
    ghost var freed: set<PathSegment>

    constructor (hostSet: bool)
      ensures Linked() && nodes == [] && freed == {} && this.hostSet == hostSet
    {
      this.hostSet := hostSet;
      pathHead, pathTail, nodes, texts, at, freed := null, null, [], [], 0, {};
    }

    /** Head and next agree, and nothing freed is in the list. */
    ghost predicate Chain()
      reads this, nodes`next, nodes`text
    {
      && NoDup(nodes) && |texts| == |nodes| && (forall i :: 0 <= i < |nodes| ==> nodes[i].text == texts[i])
      && pathHead == At(nodes, 0, null)
      && (forall i {:trigger nodes[i].next} :: 0 <= i < |nodes| ==> nodes[i].next == At(nodes, i + 1, null))
      && (forall node :: node in nodes ==> node !in freed)
    }

    ghost predicate Linked()
      reads this, nodes`next, nodes`text
    {
      Chain() && pathTail == At(nodes, |nodes| - 1, null)
    }

    /** Before the i-th segment, reserved leads back. */
    ghost predicate Backed(n: int)
      reads this, nodes`reserved
    {
      forall i {:trigger nodes[i].reserved} :: 0 <= i < n && i < |nodes| ==> nodes[i].reserved == At(nodes, i - 1, null)
    }

    /**
     * Up to the walker, reserved leads back. At the end that is claimed for all but the last segment, where a ".."
     * leaves reserved null or dangling.
     */
    ghost predicate Walking()
      reads this, nodes`next, nodes`reserved, nodes`text
    {
      Linked() && at <= |nodes| && Backed(if at < |nodes| then at + 1 else |nodes| - 1)
    }

    method Free(node: PathSegment)
      requires node !in freed
      modifies this`freed
      ensures freed == old(freed) + {node}
    {
      freed := freed + {node};
    }

    /** The segment stays, and the walker moves on. */
    method Keep(walker: PathSegment) returns (next: PathSegment?)
      requires Walking() && at < |nodes| && walker == nodes[at]
      modifies this`pathTail, this`at, nodes`reserved
      ensures Walking() && Backed(at + 1)
      ensures nodes == old(nodes) && texts == old(texts) && at == old(at) + 1 && next == At(nodes, at, null)
    {
      if walker.next != null {
        walker.next.reserved := walker;
      } else {
        pathTail := walker;
      }
      next := walker.next;
      at := at + 1;
    }

    /** The segment before a and the one at b are linked to each other. */
    method Bridge(before: PathSegment?, after: PathSegment, ghost a: nat, ghost b: nat)
      requires Walking() && a <= at < b < |nodes| && before == At(nodes, a - 1, null) && after == nodes[b]
      modifies this`pathHead, nodes`next, nodes`reserved
      ensures pathHead == if a == 0 then after else old(pathHead)
      ensures forall j {:trigger nodes[j].next} :: 0 <= j < |nodes| && (j < a || b <= j) ==>
        nodes[j].next == if j == a - 1 then after else At(nodes, j + 1, null)
      ensures forall j {:trigger nodes[j].reserved} :: 0 <= j < a ==> nodes[j].reserved == At(nodes, j - 1, null)
      ensures after.reserved == before
    {
      after.reserved := before;
      if before == null {
        pathHead := after;
      } else {
        before.next := after;
      }
    }

    /** The segments from a up to b leave the list, and the walker goes on at b. */
    method Cut(before: PathSegment?, after: PathSegment, ghost a: nat, ghost b: nat)
      requires Walking() && a <= at < b < |nodes| && before == At(nodes, a - 1, null) && after == nodes[b]
      modifies this`pathHead, this`nodes, this`texts, this`at, nodes`next, nodes`reserved
      ensures Walking() && at == a && nodes == old(nodes)[..a] + old(nodes)[b..] && nodes[at] == after
      ensures texts == old(texts)[..a] + old(texts)[b..]
      ensures forall j :: a <= j < b ==> old(nodes)[j] !in nodes
    {
      ghost var now := nodes[..a] + nodes[b..];
      CutApart(nodes, a, b);
      Bridge(before, after, a, b);
      CutNext(nodes, a, b, now);
      CutReserved(nodes, a, b, now);
      CutWithin(nodes, a, b, now);
      ghost var rest := texts[..a] + texts[b..];
      CutTexts(nodes, texts, a, b, now, rest);
      nodes, texts, at := now, rest, a;
    }

    /** A "." that is not last goes. */
    method DropDot(walker: PathSegment) returns (next: PathSegment?)
      requires Walking() && at + 1 < |nodes| && walker == nodes[at]
      modifies this, nodes`next, nodes`reserved
      ensures Walking() && at == old(at) && nodes == old(nodes)[..at] + old(nodes)[at + 1..] &&
        next == At(nodes, at, null)
      ensures texts == old(texts)[..at] + old(texts)[at + 1..]
      ensures freed == old(freed) + {walker}
    {
      next := walker.next;
      Cut(walker.reserved, walker.next, at, at + 1);
      Free(walker);
    }

    /** A last "." becomes "", or goes when it is the only segment and there is no host. */
    method LastDot(walker: PathSegment)
      requires Walking() && at + 1 == |nodes| && walker == nodes[at]
      modifies this, walker`text
      ensures Walking() && at == |nodes| && Backed(at)
      ensures if old(at) == 0 && !hostSet then nodes == [] && freed == old(freed) + {walker}
        else nodes == old(nodes) && texts == old(texts)[old(at) := ""] && freed == old(freed)
    {
      if walker.reserved == null {
        if hostSet {
          walker.text := "";
          texts, at := texts[at := ""], at + 1;
        } else {
          Free(walker);
          pathHead, pathTail := null, null;
          nodes, texts, at := [], [], 0;
        }
      } else {
        walker.text := "";
        texts, at := texts[at := ""], at + 1;
      }
    }

    /** A ".." that is not last goes with the segment before it; the one before that, if any, is linked to the next. */
    method DropPair(walker: PathSegment, prev: PathSegment, prevPrev: PathSegment?) returns (next: PathSegment?)
      requires Walking() && 1 <= at < |nodes| - 1
      requires walker == nodes[at] && prev == nodes[at - 1] && prevPrev == At(nodes, at - 2, null)
      modifies this, nodes`next, nodes`reserved
      ensures Walking() && at == old(at) - 1 && nodes == old(nodes)[..at] + old(nodes)[at + 2..] &&
        next == At(nodes, at, null)
      ensures texts == old(texts)[..at] + old(texts)[at + 2..]
      ensures freed == old(freed) + {walker, prev}
    {
      next := walker.next;
      Cut(prevPrev, walker.next, at - 1, at + 1);
      Free(walker);
      Free(prev);
    }

    /** A ".." with nothing before it goes. */
    method DropFirst(walker: PathSegment) returns (next: PathSegment?)
      requires Walking() && at == 0 && nodes != [] && walker == nodes[0]
      modifies this, nodes`reserved
      ensures Walking() && at == 0 && nodes == old(nodes)[1..] && texts == old(texts)[1..] && next == At(nodes, 0, null)
      ensures freed == old(freed) + {walker}
    {
      next := walker.next;
      pathHead := walker.next;
      if walker.next != null {
        walker.next.reserved := null;
      } else {
        pathTail := null;
      }
      Free(walker);
      nodes, texts := nodes[1..], texts[1..];
    }

    /** A last ".." after one segment becomes "". */
    method LastPair(walker: PathSegment, prev: PathSegment)
      requires Walking() && at == 1 && |nodes| == 2 && walker == nodes[1] && prev == nodes[0]
      modifies this, walker`text
      ensures Walking() && at == 1 && nodes == [walker] && texts == [""] && walker.reserved == prev
      ensures freed == old(freed) + {prev}
    {
      walker.text := "";
      pathHead, pathTail := walker, walker;
      Free(prev);
      nodes, texts := [walker], [""];
    }

    /**
     * A last ".." after more segments is replaced, with the one before it, by a new "" segment. Without memory for
     * that both are freed and the tail is left dangling.
     */
    method ReplacePair(walker: PathSegment, prev: PathSegment, prevPrev: PathSegment, memory: bool)
      requires Walking() && 2 <= at == |nodes| - 1
      requires walker == nodes[at] && prev == nodes[at - 1] && prevPrev == nodes[at - 2]
      modifies this, nodes`next
      ensures at == old(at) && freed == old(freed) + {walker, prev}
      ensures memory ==> Walking() && |nodes| == at && nodes == old(nodes)[..at - 1] + [nodes[at - 1]] &&
                         fresh(nodes[at - 1]) && nodes[at - 1].reserved == null && texts == old(texts)[..at - 1] + [""]
      ensures !memory ==>
        Chain() && nodes == old(nodes)[..at - 1] && texts == old(texts)[..at - 1] && pathTail == walker
    {
      Truncate(prevPrev, at - 1);
      if memory { AppendBlank(prevPrev); }
      Free(walker);
      Free(prev);
    }

    /** The list is cut off; the tail is not updated. */
    method Truncate(last: PathSegment, ghost k: nat)
      requires Walking() && 0 < k < |nodes| && k <= at && last == nodes[k - 1]
      modifies this`nodes, this`texts, nodes`next
      ensures Chain() && Backed(k) && nodes == old(nodes)[..k] && texts == old(texts)[..k]
      ensures forall j :: k <= j < |old(nodes)| ==> old(nodes)[j] !in nodes
    {
      last.next := null;
      nodes, texts := nodes[..k], texts[..k];
    }

    method AppendBlank(last: PathSegment)
      requires Chain() && Backed(|nodes|) && nodes != [] && last == nodes[|nodes| - 1]
      modifies this`pathTail, this`nodes, this`texts, nodes`next
      ensures Linked() && Backed(|nodes| - 1) && |nodes| == |old(nodes)| + 1
      ensures nodes == old(nodes) + [nodes[|nodes| - 1]]
      ensures fresh(nodes[|nodes| - 1]) && nodes[|nodes| - 1].reserved == null
      ensures texts == old(texts) + [""]
    {
      var segment := new PathSegment("");
      last.next := segment;
      pathTail := segment;
      nodes, texts := nodes + [segment], texts + [""];
    }

    // ----- one round

    /** The nodes are those there were, or new ones. */
    twostate predicate Local()
      reads this
    {
      forall node :: node in nodes ==> node in old(nodes) || fresh(node)
    }

    /** A "." that is not last. */
    method VisitInnerDot(walker: PathSegment) returns (next: PathSegment?)
      requires Walking() && at + 1 < |nodes| && walker == nodes[at] && walker.text == "."
      modifies this, nodes`next, nodes`reserved
      ensures Walking() && next == At(nodes, at, null) && at < |nodes| && Local()
      ensures Stepped(old(texts), old(at), texts, at, hostSet) && Accounted(old(nodes), nodes, freed) &&
        old(freed) <= freed
    {
      SteppedDot(texts, at, hostSet);
      CutMembers(nodes, at, at + 1);
      assert nodes[at..at + 1] == [walker];
      next := DropDot(walker);
    }

    /** A last "." */
    method VisitLastDot(walker: PathSegment)
      requires Walking() && at + 1 == |nodes| && walker == nodes[at] && walker.text == "."
      modifies this, walker`text
      ensures Walking() && at == |nodes| && Backed(at) && Local()
      ensures Stepped(old(texts), old(at), texts, at, hostSet) && Accounted(old(nodes), nodes, freed) &&
        old(freed) <= freed
    {
      SteppedLastDot(texts, at, hostSet);
      assert nodes == nodes[..at] + [walker];
      LastDot(walker);
    }

    method VisitOther(walker: PathSegment) returns (next: PathSegment?)
      requires Walking() && at < |nodes| && walker == nodes[at] && !IsDots(walker.text)
      modifies this`pathTail, this`at, nodes`reserved
      ensures Walking() && Backed(at + 1) && next == At(nodes, at, null) && nodes == old(nodes)
      ensures Stepped(old(texts), old(at), texts, at, hostSet)
    {
      SteppedOther(texts, at, hostSet);
      next := Keep(walker);
    }

    /** A ".." that is not last. */
    method VisitInner(walker: PathSegment) returns (next: PathSegment?)
      requires Walking() && at + 1 < |nodes| && walker == nodes[at] && walker.text == ".."
      modifies this, nodes`next, nodes`reserved
      ensures Walking() && next == At(nodes, at, null) && at < |nodes| && Local()
      ensures Stepped(old(texts), old(at), texts, at, hostSet) && Accounted(old(nodes), nodes, freed) &&
        old(freed) <= freed
    {
      var prev := walker.reserved;
      assert prev == At(nodes, at - 1, null);
      if prev == null {
        SteppedFirst(texts, hostSet);
        assert nodes == [walker] + nodes[1..];
        next := DropFirst(walker);
      } else {
        next := VisitPair(walker, prev);
      }
    }

    method VisitPair(walker: PathSegment, prev: PathSegment) returns (next: PathSegment?)
      requires Walking() && 0 < at < |nodes| - 1 && walker == nodes[at] && prev == nodes[at - 1] && walker.text == ".."
      modifies this, nodes`next, nodes`reserved
      ensures Walking() && next == At(nodes, at, null) && at < |nodes| && Local()
      ensures Stepped(old(texts), old(at), texts, at, hostSet) && Accounted(old(nodes), nodes, freed) &&
        old(freed) <= freed
    {
      SteppedPair(texts, at, hostSet);
      CutMembers(nodes, at - 1, at + 1);
      assert nodes[at - 1..at + 1] == [prev, walker];
      assert prev.reserved == At(nodes, at - 2, null);
      next := DropPair(walker, prev, prev.reserved);
    }

    /** A last ".." with nothing before it. */
    method VisitOnly(walker: PathSegment)
      requires Walking() && at == 0 && nodes == [walker] && walker.text == ".."
      modifies this, nodes`reserved
      ensures Walking() && at == |nodes| && Backed(|nodes|)
      ensures Local() && Stepped(old(texts), old(at), texts, at, hostSet)
      ensures Accounted(old(nodes), nodes, freed) && old(freed) <= freed
    {
      SteppedFirst(texts, hostSet);
      var _ := DropFirst(walker);
    }

    /** A last ".." with one segment before it: the one that stays leads back to the one that is freed. */
    method VisitSecond(walker: PathSegment, prev: PathSegment)
      requires Walking() && at == 1 && |nodes| == 2 && walker == nodes[1] && prev == nodes[0] && walker.text == ".."
      modifies this, walker`text
      ensures Walking() && at == |nodes| == 1 && Local() && Stepped(old(texts), old(at), texts, at, hostSet)
      ensures nodes[0].reserved != null && nodes[0].reserved in freed
      ensures Accounted(old(nodes), nodes, freed) && old(freed) <= freed
    {
      SteppedLast(texts, at, hostSet);
      assert nodes == [prev, walker];
      LastPair(walker, prev);
    }

    /** A last ".." with more segments before it: a new segment leads nowhere back. */
    method VisitThird(walker: PathSegment, prev: PathSegment, prevPrev: PathSegment, memory: bool)
      requires Walking() && 2 <= at == |nodes| - 1 && walker.text == ".."
      requires walker == nodes[at] && prev == nodes[at - 1] && prevPrev == nodes[at - 2]
      modifies this, nodes`next
      ensures memory ==> Walking() && at == |nodes| && Local() && Stepped(old(texts), old(at), texts, at, hostSet)
      ensures memory ==> |nodes| >= 2 && nodes[|nodes| - 1].reserved == null
      ensures !memory ==>
        Chain() && texts == old(texts)[..old(at) - 1] && nodes == old(nodes)[..old(at) - 1] && pathTail in freed
      ensures Accounted(old(nodes), nodes, freed) && old(freed) <= freed
    {
      SteppedLast(texts, at, hostSet);
      CutMembers(nodes, at - 1, at + 1);
      assert nodes[at - 1..at + 1] == [prev, walker];
      ReplacePair(walker, prev, prevPrev, memory);
    }

    /** A last "..": the back link of what is left last is lost unless nothing was kept before. */
    method VisitLast(walker: PathSegment, memory: bool) returns (ok: bool)
      requires Walking() && at + 1 == |nodes| && walker == nodes[at] && walker.text == ".."
      modifies this, nodes`next, nodes`reserved, walker`text
      ensures ok <==> memory || old(at) < 2
      ensures ok ==> Walking() && at == |nodes| && Local() && Stepped(old(texts), old(at), texts, at, hostSet)
      ensures ok ==> (Backed(|nodes|) <==> old(at) == 0)
      ensures ok && old(at) == 1 ==> |nodes| == 1 && nodes[0].reserved in freed
      ensures ok && old(at) >= 2 ==> |nodes| >= 2 && nodes[|nodes| - 1].reserved == null
      ensures !ok ==>
        Chain() && texts == old(texts)[..old(at) - 1] && nodes == old(nodes)[..old(at) - 1] && pathTail in freed
      ensures Accounted(old(nodes), nodes, freed) && old(freed) <= freed
    {
      var prev := walker.reserved;
      assert prev == At(nodes, at - 1, null);
      if prev == null {
        assert nodes == [walker];
        VisitOnly(walker);
        return true;
      }
      var prevPrev := prev.reserved;
      assert prevPrev == At(nodes, at - 2, null);
      if prevPrev == null {
        VisitSecond(walker, prev);
        return true;
      }
      VisitThird(walker, prev, prevPrev, memory);
      ok := memory;
    }

    /** A segment that is not last. */
    method Visit(walker: PathSegment) returns (next: PathSegment?)
      requires Walking() && at + 1 < |nodes| && walker == nodes[at]
      modifies this, nodes`next, nodes`reserved
      ensures Walking() && next == At(nodes, at, null) && at < |nodes| && Local()
      ensures Stepped(old(texts), old(at), texts, at, hostSet) && Accounted(old(nodes), nodes, freed) &&
        old(freed) <= freed
    {
      if |walker.text| == 1 && walker.text[0] == '.' {
        assert walker.text == ".";
        next := VisitInnerDot(walker);
      } else if |walker.text| == 2 && walker.text[0] == '.' && walker.text[1] == '.' {
        assert walker.text == "..";
        next := VisitInner(walker);
      } else {
        next := VisitOther(walker);
      }
    }

    /** The last segment. */
    method Finish(walker: PathSegment, memory: bool) returns (ok: bool)
      requires Walking() && at + 1 == |nodes| && walker == nodes[at]
      modifies this, nodes`next, nodes`reserved, walker`text
      ensures ok <==> memory || !(old(walker.text) == ".." && old(at) >= 2)
      ensures ok ==> Walking() && at == |nodes| && Stepped(old(texts), old(at), texts, at, hostSet)
      ensures ok ==> (Backed(|nodes|) <==> !(old(walker.text) == ".." && old(at) > 0))
      ensures ok && old(walker.text) == ".." && old(at) == 1 ==> |nodes| == 1 && nodes[0].reserved in freed
      ensures ok && old(walker.text) == ".." && old(at) >= 2 ==> |nodes| >= 2 && nodes[|nodes| - 1].reserved == null
      ensures !ok ==> Chain() && texts == old(texts)[..old(at) - 1] && pathTail in freed
      ensures Local() && Accounted(old(nodes), nodes, freed) && old(freed) <= freed
    {
      ok := true;
      if |walker.text| == 1 && walker.text[0] == '.' {
        assert walker.text == ".";
        VisitLastDot(walker);
      } else if |walker.text| == 2 && walker.text[0] == '.' && walker.text[1] == '.' {
        assert walker.text == "..";
        ok := VisitLast(walker, memory);
      } else {
        var _ := VisitOther(walker);
      }
    }

    /**
     * RemoveDotSegmentsEx: the list is left with the segments of the specification, and every segment taken out of
     * it is freed, once. Head, tail and next agree; so do the back links, unless a last ".." follows something kept.
     * It fails exactly when that takes a new segment and there is no memory for it, and leaves a dangling tail then.
     */
    method RemoveDotSegments(memory: bool) returns (ok: bool)
      requires Linked()
      modifies this, nodes`next, nodes`reserved, nodes`text
      ensures ok <==> memory || !TakesSegment(old(texts))
      ensures ok ==> Linked() && texts == Removed(old(texts), hostSet) && Backed(|nodes| - 1)
      ensures ok ==> (Backed(|nodes|) <==> !LosesBackLink(old(texts)))
      ensures ok && LosesBackLink(old(texts)) ==> LastBackLink(if TakesSegment(old(texts)) then {null} else freed)
      ensures !ok ==> Chain() && texts == Pop(Kept([], old(texts))) && pathTail in freed
      ensures Local() && Accounted(old(nodes), nodes, freed) && old(freed) <= freed
    {
      if pathHead == null { return true; }
      ok := WalkAll(memory);
    }

    /** The walk over a list that is not empty. */
    method WalkAll(memory: bool) returns (ok: bool)
      requires Linked() && nodes != []
      modifies this, nodes`next, nodes`reserved, nodes`text
      ensures ok <==> memory || !TakesSegment(old(texts))
      ensures ok ==> Linked() && texts == Removed(old(texts), hostSet) && Backed(|nodes| - 1)
      ensures ok ==> (Backed(|nodes|) <==> !LosesBackLink(old(texts)))
      ensures ok && LosesBackLink(old(texts)) ==> LastBackLink(if TakesSegment(old(texts)) then {null} else freed)
      ensures !ok ==> Chain() && texts == Pop(Kept([], old(texts))) && pathTail in freed
      ensures Local() && Accounted(old(nodes), nodes, freed) && old(freed) <= freed
    {
      var walker := WalkToLast();
      ghost var was, i := texts, at;
      forall i | 0 <= i < |nodes| ensures nodes[i] in old(nodes) || fresh(nodes[i]) { assert nodes[i] in nodes; }
      ok := Finish(walker, memory);
      Arrived(old(texts), was, i, hostSet);
      if ok { Completed(old(texts), was, i, texts, hostSet); }
    }

    /** The back link of the last segment is one of these. */
    ghost predicate LastBackLink(targets: set<PathSegment?>)
      reads this, nodes`reserved
    {
      nodes != [] && nodes[|nodes| - 1].reserved in targets
    }

    /** The rounds up to the last segment. */
    method WalkToLast() returns (walker: PathSegment)
      requires Linked() && nodes != []
      modifies this, nodes`next, nodes`reserved
      ensures Walking() && at + 1 == |nodes| && walker == nodes[at] && OnTheWay(old(texts), texts, at, hostSet)
      ensures Local() && Accounted(old(nodes), nodes, freed) && old(freed) <= freed
    {
      walker := pathHead;
      walker.reserved := null;
      at := 0;
      StartsOut(texts, hostSet);
      while walker.next != null
        invariant Walking() && at < |nodes| && walker == nodes[at] && OnTheWay(old(texts), texts, at, hostSet)
        invariant Local() && Accounted(old(nodes), nodes, freed) && old(freed) <= freed
        decreases |texts| - at
      {
        ghost var was, i := texts, at;
        forall i | 0 <= i < |nodes| ensures nodes[i] in old(nodes) || fresh(nodes[i]) { assert nodes[i] in nodes; }
        walker := Visit(walker);
        OnTheWayNext(old(texts), was, i, texts, at, hostSet);
      }
    }
  }

  /** The last segment is ".." and something is kept in front of it: what is left last has no usable back link. */
  predicate LosesBackLink(segments: seq<string>) {
    segments != [] && segments[|segments| - 1] == ".." && Kept([], segments) != []
  }

  /** It takes a new segment, for the trailing slash: two segments at least are kept in front of a last ".." */
  predicate TakesSegment(segments: seq<string>) {
    segments != [] && segments[|segments| - 1] == ".." && |Kept([], segments)| >= 2
  }

  /** The smallest lists that lose the back link: into a freed segment, and to null. */
  lemma LostBackLinks()
    ensures LosesBackLink(["a", ".."]) && !TakesSegment(["a", ".."])
    ensures LosesBackLink(["a", "b", ".."]) && TakesSegment(["a", "b", ".."])
  {
    assert ["a", ".."][1..] == [".."];
    assert ["a", "b", ".."][1..] == ["b", ".."] && ["b", ".."][1..] == [".."];
    assert Kept(["a", "b"], [".."]) == ["a", "b"];
    assert Kept(["a"], ["b", ".."]) == ["a"] + ["b"] == ["a", "b"];
  }

  // ----- the walk, on sequences

  /** From here on, the walk leads where it would have led from the start. */
  ghost predicate OnTheWay(was: seq<string>, now: seq<string>, j: nat, hostSet: bool) {
    && j < |now| && was != []
    && Fold(now[..j], now[j..], hostSet) == Removed(was, hostSet)
    && Kept(now[..j], now[j..]) == Kept([], was)
    && now[|now| - 1] == was[|was| - 1]
  }

  lemma StartsOut(was: seq<string>, hostSet: bool)
    requires was != []
    ensures OnTheWay(was, was, 0, hostSet)
  {
    assert was[..0] == [] && was[0..] == was;
  }

  lemma OnTheWayNext(was: seq<string>, now: seq<string>, i: nat, next: seq<string>, j: nat, hostSet: bool)
    requires OnTheWay(was, now, i, hostSet) && Stepped(now, i, next, j, hostSet) && i + 1 < |now| && j < |next|
    ensures OnTheWay(was, next, j, hostSet)
  {
    var out, rest := now[..i], now[i..];
    assert rest[0] == now[i] && rest[1..] == now[i + 1..] == next[j..];
    assert next[..j] == Step(out, rest[0], false, hostSet) == StandardStep(out, rest[0], false);
    assert next[|next| - 1] == next[j..][|next| - j - 1] == now[i + 1..][|now| - i - 2] == now[|now| - 1];
  }

  lemma Arrived(was: seq<string>, now: seq<string>, i: nat, hostSet: bool)
    requires OnTheWay(was, now, i, hostSet) && i + 1 == |now|
    ensures Kept([], was) == now[..i] && was[|was| - 1] == now[i] && Pop(now[..i]) == if i == 0 then []
      else now[..i - 1]
  {}

  lemma Completed(was: seq<string>, now: seq<string>, i: nat, end: seq<string>, hostSet: bool)
    requires OnTheWay(was, now, i, hostSet) && Stepped(now, i, end, |end|, hostSet) && i + 1 == |now|
    ensures end == Removed(was, hostSet)
  {
    assert now[i..] == [now[i]] && now[i..][1..] == [] && end[..|end|] == end;
    assert Fold(now[..i], now[i..], hostSet) == Fold(end, [], hostSet) == end;
  }
}
