/**
  `get_avp_data`: looking up a code in a decoded packet, and what that finds in
  the tree the packet was printed from.
 */
module AvpLookup {
  import opened PyText
  import opened AvpCodec
  import opened AvpTree

  /** An entry of the result: a payload, or the sub-AVP list of a blank AVP. */
  datatype Found = Text(data: string) | Subs(list: seq<SubAvp>)

  function LookupSubs(subs: seq<SubAvp>, code: int): seq<Found> {
    if subs == [] then []
    else (if subs[0].code == code then [Text(subs[0].data)] else []) + LookupSubs(subs[1..], code)
  }

  function FoundAt(a: Avp): Found {
    if |a.head.data| == 0 then Subs(a.subs) else Text(a.head.data)
  }

  function Lookup(avps: seq<Avp>, code: int): seq<Found> {
    if avps == [] then []
    else (if avps[0].head.code == code then [FoundAt(avps[0])] else [])
         + LookupSubs(avps[0].subs, code) + Lookup(avps[1..], code)
  }

  lemma ConsConcat<T>(a: seq<T>, b: seq<T>)
    requires a != []
    ensures (a + b)[0] == a[0] && (a + b)[1..] == a[1..] + b
  {
  }

  lemma Reassociate<T>(a: seq<T>, b: seq<T>, c: seq<T>)
    ensures a + (b + c) == (a + b) + c
  {
  }

  lemma {:induction false} LookupSubsConcat(a: seq<SubAvp>, b: seq<SubAvp>, code: int)
    ensures LookupSubs(a + b, code) == LookupSubs(a, code) + LookupSubs(b, code)
  {
    if a == [] {
      assert a + b == b;
    } else {
      ConsConcat(a, b);
      LookupSubsConcat(a[1..], b, code);
      Reassociate(if a[0].code == code then [Text(a[0].data)] else [], LookupSubs(a[1..], code), LookupSubs(b, code));
    }
  }

  lemma {:induction false} LookupConcat(a: seq<Avp>, b: seq<Avp>, code: int)
    ensures Lookup(a + b, code) == Lookup(a, code) + Lookup(b, code)
  {
    if a == [] {
      assert a + b == b;
    } else {
      hide LookupSubs, FoundAt;
      ConsConcat(a, b);
      LookupConcat(a[1..], b, code);
      Reassociate((if a[0].head.code == code then [FoundAt(a[0])] else []) + LookupSubs(a[0].subs, code),
                  Lookup(a[1..], code), Lookup(b, code));
    }
  }

  function Hit(matches: bool, f: Found): seq<Found> {
    if matches then [f] else []
  }

  lemma LookupSubsNext(subs: seq<SubAvp>, j: nat, code: int)
    requires j < |subs|
    ensures LookupSubs(subs[..j + 1], code)
         == LookupSubs(subs[..j], code) + Hit(subs[j].code == code, Text(subs[j].data))
  {
    assert subs[..j + 1] == subs[..j] + [subs[j]];
    LookupSubsConcat(subs[..j], [subs[j]], code);
  }

  lemma LookupNext(avps: seq<Avp>, i: nat, code: int)
    requires i < |avps|
    ensures Lookup(avps[..i + 1], code)
         == Lookup(avps[..i], code) + Hit(avps[i].head.code == code, FoundAt(avps[i])) + LookupSubs(avps[i].subs, code)
  {
    hide LookupSubs, FoundAt;
    assert avps[..i + 1] == avps[..i] + [avps[i]];
    LookupConcat(avps[..i], [avps[i]], code);
    var hit, inner := Hit(avps[i].head.code == code, FoundAt(avps[i])), LookupSubs(avps[i].subs, code);
    assert Lookup([avps[i]], code) == hit + inner + [] == hit + inner;
  }

  ghost function Then(front: seq<Found>, rest: seq<Found>): seq<Found> {
    front + rest
  }

  /** What one AVP adds, as the loops add it. */
  lemma LookupSteps(avps: seq<Avp>, i: nat, code: int)
    requires i < |avps|
    ensures var hit := Lookup(avps[..i], code) + Hit(avps[i].head.code == code, FoundAt(avps[i]));
            && Then(hit, LookupSubs(avps[i].subs[..0], code)) == hit
            && Lookup(avps[..i + 1], code) == Then(hit, LookupSubs(avps[i].subs[..|avps[i].subs|], code))
            && (forall j :: 0 <= j < |avps[i].subs| ==>
                  Then(hit, LookupSubs(avps[i].subs[..j + 1], code))
                  == Then(hit, LookupSubs(avps[i].subs[..j], code)) + Hit(avps[i].subs[j].code == code, Text(avps[i].subs[j].data)))
  {
    hide FoundAt, Lookup;
    LookupNext(avps, i, code);
    var subs := avps[i].subs;
    var hit := Lookup(avps[..i], code) + Hit(avps[i].head.code == code, FoundAt(avps[i]));
    assert subs[..|subs|] == subs;
    forall j | 0 <= j < |subs|
      ensures Then(hit, LookupSubs(subs[..j + 1], code))
           == Then(hit, LookupSubs(subs[..j], code)) + Hit(subs[j].code == code, Text(subs[j].data))
    {
      LookupSubsNext(subs, j, code);
      Reassociate(hit, LookupSubs(subs[..j], code), Hit(subs[j].code == code, Text(subs[j].data)));
    }
  }

  lemma LookupEnds(avps: seq<Avp>, code: int)
    ensures Lookup(avps[..0], code) == [] && avps[..|avps|] == avps
  {
  }

  method GetAvpData(avps: seq<Avp>, code: int) returns (found: seq<Found>)
    ensures found == Lookup(avps, code)
  {
    hide Lookup, LookupSubs, Then;
    found := [];
    LookupEnds(avps, code);
    for i := 0 to |avps|
      invariant found == Lookup(avps[..i], code)
    {
      LookupSteps(avps, i, code);
      var avp := avps[i];
      if avp.head.code == code {
        if |avp.head.data| == 0 {
          found := found + [Subs(avp.subs)];
        } else {
          found := found + [Text(avp.head.data)];
        }
      }
      ghost var hit := Lookup(avps[..i], code) + Hit(avp.head.code == code, FoundAt(avp));
      assert found == hit;
      for j := 0 to |avp.subs|
        invariant found == Then(hit, LookupSubs(avp.subs[..j], code))
      {
        if avp.subs[j].code == code {
          found := found + [Text(avp.subs[j].data)];
        }
      }
    }
  }

  // ------------------------------------------------------- seen from the tree

  /** What looking up a node's code should yield for it: a leaf its payload, a
      top-level group its flattened members; a group further down is blank. */
  function Datum(t: Tree, top: bool): Found {
    match t
    case Leaf(_, payload) => if top && payload == "" then Subs([]) else Text(payload)
    case Group(_, members) => if top then Subs(Flatten(members)) else Text("")
  }

  /** One entry for every node with the code, wherever it is in the forest. */
  function Expected(f: Forest, code: int, top: bool): multiset<Found> {
    match f
    case Empty => multiset{}
    case More(first, rest) =>
      (if first.head.code == code then multiset{Datum(first, top)} else multiset{})
      + (if first.Group? then Expected(first.members, code, false) else multiset{})
      + Expected(rest, code, top)
  }

  /** The same entries in the order of the flattening: a top-level AVP is followed by what is
      inside it; further down what is inside an AVP comes after its later siblings. */
  function InOrder(f: Forest, code: int, top: bool): seq<Found> {
    match f
    case Empty => []
    case More(first, rest) =>
      var here := Hit(first.head.code == code, Datum(first, top));
      var inside := if first.Group? then InOrder(first.members, code, false) else [];
      if top then here + inside + InOrder(rest, code, top) else here + InOrder(rest, code, top) + inside
  }

  lemma {:induction false} OrderCounts(f: Forest, code: int, top: bool)
    ensures multiset(InOrder(f, code, top)) == Expected(f, code, top)
  {
    hide Datum;
    if f.More? {
      OrderCounts(f.rest, code, top);
      if f.first.Group? {
        OrderCounts(f.first.members, code, false);
      }
    }
  }

  lemma {:induction false} LookupFlattened(f: Forest, code: int)
    ensures LookupSubs(Flatten(f), code) == InOrder(f, code, false)
  {
    hide RecordOf, LookupSubs, Datum, Hit;
    if f.Empty? {
      LookupNothing(code);
    } else {
      LookupFlattened(f.rest, code);
      var t := f.first;
      var inner := if t.Group? then Flatten(t.members) else [];
      LookupNothing(code);
      if t.Group? {
        LookupFlattened(t.members, code);
      }
      LookupSubsConcat([RecordOf(t)] + Flatten(f.rest), inner, code);
      LookupSubsConcat([RecordOf(t)], Flatten(f.rest), code);
      LookupOne(t, code);
    }
  }

  lemma LookupNothing(code: int)
    ensures LookupSubs([], code) == []
  {
  }

  lemma LookupOne(t: Tree, code: int)
    ensures LookupSubs([RecordOf(t)], code) == Hit(t.head.code == code, Datum(t, false))
  {
    hide LengthOf, WidenVendor, Flatten;
  }

  lemma {:induction false} LookupRecords(f: Forest, code: int)
    ensures Lookup(Records(f), code) == InOrder(f, code, true)
  {
    hide LengthOf, WidenVendor;
    if f.More? {
      LookupRecords(f.rest, code);
      var t := f.first;
      if t.Group? {
        LookupFlattened(t.members, code);
      }
      assert Records(f)[1..] == Records(f.rest);
    }
  }

  /** Looking up a code in a decoded packet finds exactly the nodes of the tree
      with that code, in the order of the flattening and each as often as it occurs. */
  lemma LookupPrinted(f: Forest, code: int)
    requires ForestOk(f) && Size(f) <= 100 && !BareTail(f)
    ensures Lookup(Decode(Print(f)), code) == InOrder(f, code, true)
    ensures multiset(Lookup(Decode(Print(f)), code)) == Expected(f, code, true)
  {
    hide ForestOk, Print, Decode, Records, Lookup, Expected, InOrder, Size, BareTail;
    OkRoundTrip(f);
    LookupRecords(f, code);
    OrderCounts(f, code, true);
  }

  /** When one AVP has the code, the first entry of the result is its datum. */
  lemma LookupUnique(f: Forest, code: int, d: Found)
    requires ForestOk(f) && Size(f) <= 100 && !BareTail(f)
    requires Expected(f, code, true) == multiset{d}
    ensures Lookup(Decode(Print(f)), code) == [d]
  {
    hide ForestOk, Print, Decode, Lookup, Expected, Size, BareTail;
    LookupPrinted(f, code);
    var r := Lookup(Decode(Print(f)), code);
    assert |multiset(r)| == 1;
    assert r[0] in multiset(r);
  }
}
