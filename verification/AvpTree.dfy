/**
  Trees of AVPs and what the flattening decoder makes of them.  The stack
  machine of the decoder is shown to compute a recursive flattening of the
  tree, and so to invert the printer.
 */
module AvpTree {
  import opened PyText
  import opened AvpCodec

  /** What every AVP carries besides its content. */
  datatype Header = Header(code: nat, flags: string, vendor: Option<nat>)

  datatype Tree = Leaf(head: Header, payload: string) | Group(head: Header, members: Forest)

  datatype Forest = Empty | More(first: Tree, rest: Forest)

  // ---------------------------------------------------------------- printing

  /** One AVP, by whichever of the two printers its vendor calls for. */
  function PrintAvp(l: Header, content: string): string {
    if l.vendor.Some? then GenerateVendorAvp(l.code, l.flags, l.vendor.value, content)
    else GenerateAvp(l.code, l.flags, content)
  }

  function Content(t: Tree): string {
    match t
    case Leaf(_, payload) => payload
    case Group(_, members) => Print(members)
  }

  function Print(f: Forest): string {
    match f
    case Empty => ""
    case More(first, rest) => PrintAvp(first.head, Content(first)) + Print(rest)
  }

  /** The AVP Length field: header, vendor field and content, without padding. */
  function LengthOf(t: Tree): nat {
    (if t.head.vendor.Some? then 12 else 8) + |Content(t)| / 2
  }

  // ---------------------------------------------------------------- premises

  /** Values the header fields can hold, with a vendor field exactly when the
      decoder will look for one. */
  predicate HeaderOk(l: Header) {
    && l.code < Pow16(8) && |l.flags| == 2
    && (l.vendor.Some? <==> l.flags == "c0" || l.flags == "80")
    && (l.vendor.Some? ==> l.vendor.value < Pow16(8))
  }

  /** Whole bytes that fit the length field. */
  predicate FieldsOk(t: Tree) {
    HeaderOk(t.head) && |Content(t)| % 2 == 0 && LengthOf(t) < Pow16(6)
  }

  /** Such an AVP whose leaves do not look like an AVP. */
  predicate TreeOk(t: Tree) {
    && FieldsOk(t)
    && match t
       case Leaf(_, payload) => !LooksLikeAvp(payload)
       case Group(_, members) => InsideOk(members)
  }

  predicate ForestOk(f: Forest) {
    f.More? ==> TreeOk(f.first) && ForestOk(f.rest)
  }

  /** Inside a group the flags must also be ones the decoder knows. */
  predicate InsideOk(f: Forest) {
    f.More? ==> TreeOk(f.first) && f.first.head.flags in KNOWN_FLAGS && InsideOk(f.rest)
  }

  // ---------------------------------------------------------------- flattening

  function WidenVendor(v: Option<nat>): Option<int> {
    if v.Some? then Some(v.value) else None
  }

  /** The record of one node; a group's own data is blank. */
  function RecordOf(t: Tree): SubAvp {
    SubAvp(t.head.code, t.head.flags, LengthOf(t), WidenVendor(t.head.vendor),
           if t.Leaf? then t.payload else "")
  }

  /** Siblings in order, then the contents of the groups among them, the last
      group first. */
  function Flatten(f: Forest): seq<SubAvp> {
    match f
    case Empty => []
    case More(first, rest) =>
      [RecordOf(first)] + Flatten(rest) + (if first.Group? then Flatten(first.members) else [])
  }

  /** One record for each top-level AVP. */
  function Records(f: Forest): seq<Avp> {
    match f
    case Empty => []
    case More(first, rest) =>
      [Avp(RecordOf(first), if first.Group? then Flatten(first.members) else [])] + Records(rest)
  }

  /** The first `budget` nodes of a list of records, nested ones counted. */
  function Cut(avps: seq<Avp>, budget: nat): seq<Avp> {
    if avps == [] || budget == 0 then []
    else if |avps[0].subs| >= budget then [Avp(avps[0].head, avps[0].subs[..budget - 1])]
    else [avps[0]] + Cut(avps[1..], budget - 1 - |avps[0].subs|)
  }

  predicate BareTail(f: Forest) {
    f.More? && if f.rest.Empty? then LengthOf(f.first) == 8 else BareTail(f.rest)
  }

  /** The top-level loop stops at sixteen characters, so a last AVP that is
      only a header is never read. */
  function WithoutBareTail(f: Forest): Forest {
    match f
    case Empty => Empty
    case More(first, rest) =>
      if rest.Empty? then (if LengthOf(first) == 8 then Empty else f)
      else More(first, WithoutBareTail(rest))
  }

  // ------------------------------------------------- reading back one AVP

  /** Where the fields of a printed AVP lie. */
  lemma FieldsLie(code: string, flags: string, length: string, vendor: string, content: string, padding: string)
    requires |code| == 8 && |flags| == 2 && |length| == 6 && (vendor == "" || |vendor| == 8)
    ensures var p := code + flags + length + vendor + content + padding;
            && p[..8] == code && p[8..10] == flags && p[10..16] == length
            && (vendor != "" ==> p[16..24] == vendor)
            && p[16 + |vendor|..16 + |vendor| + |content|] == content
            && |p| == 16 + |vendor| + |content| + |padding|
  {
  }

  /** The text of a printed AVP. */
  lemma PrintAvpFields(t: Tree)
    requires FieldsOk(t)
    ensures var vendor := if t.head.vendor.Some? then FixedHex(t.head.vendor.value, 8) else "";
            var n := LengthOf(t);
            && |FixedHex(t.head.code, 8)| == 8 && |FixedHex(n, 6)| == 6
            && (t.head.vendor.Some? ==> |vendor| == 8)
            && PrintAvp(t.head, Content(t))
               == FixedHex(t.head.code, 8) + t.head.flags + FixedHex(n, 6) + vendor + Content(t) + Zeros((RoundUp4(n) - n) * 2)
  {
    hide FixedHex, Zeros, Content, Pow16, PrintFields;
    FixedHexRoundTrip(t.head.code, 8);
    FixedHexRoundTrip(LengthOf(t), 6);
    if t.head.vendor.Some? {
      FixedHexRoundTrip(t.head.vendor.value, 8);
      PrintFieldsText(t.head.code, t.head.flags, FixedHex(t.head.vendor.value, 8), Content(t), LengthOf(t));
    } else {
      PrintFieldsText(t.head.code, t.head.flags, "", Content(t), LengthOf(t));
    }
  }

  lemma PrintFieldsText(code: nat, flags: string, vendor: string, content: string, n: nat)
    requires |FixedHex(code, 8)| == 8 && |flags| == 2 && 2 * n == 16 + |vendor| + |content|
    ensures PrintFields(code, flags, vendor, content)
         == FixedHex(code, 8) + flags + FixedHex(n, 6) + vendor + content + Zeros((RoundUp4(n) - n) * 2)
  {
    hide FixedHex, Zeros;
  }

  /** A printed AVP is read back whatever follows it. */
  lemma ReadPrinted(t: Tree, after: string)
    requires FieldsOk(t)
    ensures var data := PrintAvp(t.head, Content(t)) + after;
            && ReadAvp(data) == Some(SubAvp(t.head.code, t.head.flags, LengthOf(t), WidenVendor(t.head.vendor), Content(t)))
            && After(data, LengthOf(t)) == after
            && |data| == 2 * RoundUp4(LengthOf(t)) + |after|
  {
    hide FixedHex, Zeros, Content, ParseInt, PrintAvp, Pow16;
    var n, content := LengthOf(t), Content(t);
    var vendor := if t.head.vendor.Some? then FixedHex(t.head.vendor.value, 8) else "";
    var padding := Zeros((RoundUp4(n) - n) * 2);
    FixedHexRoundTrip(t.head.code, 8);
    FixedHexRoundTrip(n, 6);
    if t.head.vendor.Some? {
      FixedHexRoundTrip(t.head.vendor.value, 8);
    }
    PrintAvpFields(t);
    FieldsLie(FixedHex(t.head.code, 8), t.head.flags, FixedHex(n, 6), vendor, content, padding + after);
    var data := PrintAvp(t.head, content) + after;
    assert data == FixedHex(t.head.code, 8) + t.head.flags + FixedHex(n, 6) + vendor + content + (padding + after);
    assert data[|data| - |after|..] == after;
  }

  /** Printed AVPs with known flags pass the validation test, whatever follows. */
  lemma PrintedLooksLikeAvp(t: Tree, after: string)
    requires TreeOk(t) && t.head.flags in KNOWN_FLAGS
    ensures LooksLikeAvp(PrintAvp(t.head, Content(t)) + after)
  {
    hide FixedHex, Content, ParseInt, PrintAvp, Pow16;
    ReadPrinted(t, after);
  }

  lemma NothingLooksLikeAvp()
    ensures !LooksLikeAvp("")
  {
  }

  /** A list of AVPs inside a group passes the test exactly when it is not empty. */
  lemma InsideLooksLikeAvp(f: Forest)
    requires InsideOk(f)
    ensures LooksLikeAvp(Print(f)) <==> f.More?
  {
    hide LooksLikeAvp, PrintAvp, Pow16;
    if f.More? {
      PrintedLooksLikeAvp(f.first, Print(f.rest));
    } else {
      NothingLooksLikeAvp();
    }
  }

  /** The decoder's guess is right on every node of a well-formed tree. */
  lemma GuessIsRight(t: Tree)
    requires TreeOk(t)
    ensures LooksLikeAvp(Content(t)) <==> t.Group? && t.members.More?
  {
    hide LooksLikeAvp, Pow16;
    if t.Group? {
      InsideLooksLikeAvp(t.members);
    }
  }

  // -------------------------------------- the stack machine on printed trees

  function PrintAll(st: seq<Forest>): (r: seq<string>)
    ensures |r| == |st|
  {
    if st == [] then [] else PrintAll(st[..|st| - 1]) + [Print(st[|st| - 1])]
  }

  /** What a stack of unprocessed lists will yield, top first. */
  function FlattenAll(st: seq<Forest>): seq<SubAvp> {
    if st == [] then [] else Flatten(st[|st| - 1]) + FlattenAll(st[..|st| - 1])
  }

  predicate StackOk(st: seq<Forest>) {
    forall i :: 0 <= i < |st| ==> st[i].More? && InsideOk(st[i])
  }

  /** What is inside an AVP. */
  function Inside(t: Tree): Forest {
    if t.Group? then t.members else Empty
  }

  function IfAny(f: Forest): seq<Forest> {
    if f.More? then [f] else []
  }

  /** The stack after the first AVP of its top list has been taken off. */
  function NextStack(below: seq<Forest>, top: Forest): seq<Forest>
    requires top.More?
  {
    below + IfAny(Inside(top.first)) + IfAny(top.rest)
  }

  lemma PushAll(below: seq<Forest>, top: Forest)
    ensures PrintAll(below + [top]) == PrintAll(below) + [Print(top)]
    ensures FlattenAll(below + [top]) == Flatten(top) + FlattenAll(below)
  {
    assert (below + [top])[..|below|] == below;
  }

  lemma PushAny(below: seq<Forest>, f: Forest)
    ensures PrintAll(below + IfAny(f)) == PrintAll(below) + if f.More? then [Print(f)] else []
    ensures FlattenAll(below + IfAny(f)) == Flatten(f) + FlattenAll(below)
  {
    if f.More? {
      PushAll(below, f);
    } else {
      assert below + [] == below && PrintAll(below) + [] == PrintAll(below);
      assert [] + FlattenAll(below) == FlattenAll(below);
    }
  }

  /** One step of the machine takes one node off the forests. */
  lemma NextStackFlattens(below: seq<Forest>, top: Forest)
    requires top.More?
    ensures FlattenAll(below + [top]) == [RecordOf(top.first)] + FlattenAll(NextStack(below, top))
  {
    hide RecordOf;
    PushAll(below, top);
    var members, inner := IfAny(Inside(top.first)), Flatten(Inside(top.first));
    PushAny(below, Inside(top.first));
    PushAny(below + members, top.rest);
    Regroup([RecordOf(top.first)], Flatten(top.rest), inner, FlattenAll(below));
  }

  lemma Regroup<T>(a: seq<T>, b: seq<T>, c: seq<T>, d: seq<T>)
    ensures (a + b + c) + d == a + (b + (c + d))
  {
  }

  lemma NextStackPrints(below: seq<Forest>, top: Forest)
    requires top.More? && InsideOk(top)
    ensures var a := ReadAvp(Print(top));
            && a.Some? && Blanked(a.value) == RecordOf(top.first)
            && PushBoth(PrintAll(below), a.value, Print(top)) == PrintAll(NextStack(below, top))
  {
    hide LooksLikeAvp, ReadAvp, After, PrintAvp, Pow16, HeaderOk;
    var t, rest := top.first, top.rest;
    ReadPrinted(t, Print(rest));
    GuessIsRight(t);
    InsideLooksLikeAvp(rest);
    PushAny(below, Inside(t));
    PushAny(below + IfAny(Inside(t)), rest);
    assert PrintAll(below) + [] == PrintAll(below);
  }

  /** The inner loop computes the recursive flattening of everything on the
      stack, cut off where the failsafe runs out. */
  lemma {:induction false} UnpackPrinted(st: seq<Forest>, failsafe: nat)
    requires failsafe <= FAILSAFE_LIMIT && StackOk(st)
    ensures var u := UnpackSpec(PrintAll(st), failsafe);
            var flat := FlattenAll(st);
            && !u.raised
            && (failsafe + |flat| <= FAILSAFE_LIMIT ==> u == Unpacked(flat, [], failsafe + |flat|, false))
            && (failsafe + |flat| > FAILSAFE_LIMIT ==>
                  u.subs == flat[..FAILSAFE_LIMIT - failsafe] && u.failsafe == FAILSAFE_LIMIT + 1)
    decreases FAILSAFE_LIMIT - failsafe
  {
    hide LooksLikeAvp, ReadAvp, After, PrintAvp, Blanked, PushBoth, RecordOf, Print, Flatten, NextStack, InsideOk;
    if st != [] {
      var below, top := st[..|st| - 1], st[|st| - 1];
      assert st == below + [top];
      NextStackFlattens(below, top);
      if failsafe < FAILSAFE_LIMIT {
        NextStackPrints(below, top);
        NextStackOk(below, top);
        UnpackPrinted(NextStack(below, top), failsafe + 1);
      }
    }
  }

  lemma NextStackOk(below: seq<Forest>, top: Forest)
    requires StackOk(below) && top.More? && InsideOk(top)
    ensures StackOk(NextStack(below, top))
  {
    hide HeaderOk, LooksLikeAvp, Pow16, Content;
  }

  /** The flattening in words: the siblings, then the groups' contents, the last
      group first. */
  function Siblings(f: Forest): seq<SubAvp> {
    if f.Empty? then [] else [RecordOf(f.first)] + Siblings(f.rest)
  }

  function GroupsLastFirst(f: Forest): seq<SubAvp> {
    if f.Empty? then []
    else GroupsLastFirst(f.rest) + (if f.first.Group? then Flatten(f.first.members) else [])
  }

  lemma {:induction false} FlattenOrder(f: Forest)
    ensures Flatten(f) == Siblings(f) + GroupsLastFirst(f)
  {
    hide RecordOf;
    if f.More? {
      FlattenOrder(f.rest);
      var inner := if f.first.Group? then Flatten(f.first.members) else [];
      Regroup([RecordOf(f.first)], Siblings(f.rest), GroupsLastFirst(f.rest), inner);
    }
  }

  // ---------------------------------------------------- the whole decoder

  lemma PrintIsLong(f: Forest)
    requires f.More? && ForestOk(f)
    ensures |Print(f)| == 2 * RoundUp4(LengthOf(f.first)) + |Print(f.rest)|
    ensures |Print(f)| >= 16
    ensures |Print(f)| > 16 <==> f.rest.More? || LengthOf(f.first) != 8
    decreases f
  {
    hide LooksLikeAvp, ReadAvp, After, PrintAvp, Pow16, HeaderOk;
    ReadPrinted(f.first, Print(f.rest));
    if f.rest.More? {
      PrintIsLong(f.rest);
    }
  }

  lemma CutFirst(a: Avp, rest: seq<Avp>, budget: nat)
    requires budget > 0
    ensures Cut([a] + rest, budget) ==
            if |a.subs| >= budget then [Avp(a.head, a.subs[..budget - 1])]
            else [a] + Cut(rest, budget - 1 - |a.subs|)
  {
    assert ([a] + rest)[1..] == rest;
  }

  /** The first AVP of a printed list, as the decoder reads it. */
  lemma ReadFirst(t: Tree, after: string)
    requires TreeOk(t)
    ensures var data := PrintAvp(t.head, Content(t)) + after;
            var a := ReadAvp(data);
            && a.Some? && Blanked(a.value) == RecordOf(t) && a.value.data == Content(t)
            && a.value.length == LengthOf(t) && After(data, LengthOf(t)) == after
            && (!LooksLikeAvp(Content(t)) ==> a.value == RecordOf(t))
            && (t.Group? ==> InsideOk(t.members) && PrintAll([t.members]) == [Content(t)])
    ensures LooksLikeAvp(Content(t)) <==> t.Group? && t.members.More?
  {
    hide LooksLikeAvp, ReadAvp, After, PrintAvp, Pow16, HeaderOk, LengthOf;
    ReadPrinted(t, after);
    GuessIsRight(t);
    if t.Group? {
      PushAll([], t.members);
      assert [] + [t.members] == [t.members];
    }
  }

  lemma EmptyFlattens()
    ensures Flatten(Empty) == []
  {
  }

  /** One turn of the outer loop on a printed list. */
  lemma DecodeOne(t: Tree, rest: Forest, failsafe: nat)
    requires TreeOk(t) && failsafe < FAILSAFE_LIMIT
    requires |Print(More(t, rest))| > 16
    ensures var flat := if t.Group? then Flatten(t.members) else [];
            var budget := FAILSAFE_LIMIT - failsafe;
            DecodeSpec(Print(More(t, rest)), [], failsafe) ==
            if |flat| >= budget then [Avp(RecordOf(t), flat[..budget - 1])]
            else [Avp(RecordOf(t), flat)] + DecodeSpec(Print(rest), [], failsafe + 1 + |flat|)
  {
    hide LooksLikeAvp, ReadAvp, After, PrintAvp, TreeOk, LengthOf, RecordOf, Blanked, Flatten, Content, UnpackSpec;
    ReadFirst(t, Print(rest));
    if t.Group? && t.members.Empty? {
      EmptyFlattens();
    } else if t.Group? {
      UnpackPrinted([t.members], failsafe + 1);
      PushAll([], t.members);
      assert [] + [t.members] == [t.members];
      assert Flatten(t.members) + [] == Flatten(t.members);
      assert [] + [Content(t)] == [Content(t)];
    }
  }

  /** The outer loop, started with an empty stack, reads a printed list. */
  lemma {:induction false} DecodePrintedFrom(f: Forest, failsafe: nat)
    requires failsafe <= FAILSAFE_LIMIT && ForestOk(f)
    ensures DecodeSpec(Print(f), [], failsafe) == Cut(Records(WithoutBareTail(f)), FAILSAFE_LIMIT - failsafe)
    decreases f
  {
    hide LooksLikeAvp, ReadAvp, After, PrintAvp, TreeOk, LengthOf, RecordOf, Blanked, Flatten, Content, UnpackSpec;
    if f.More? {
      var t, rest := f.first, f.rest;
      PrintIsLong(f);
      if !(rest.Empty? && LengthOf(t) == 8) && failsafe < FAILSAFE_LIMIT {
        hide DecodeSpec, Cut;
        assert WithoutBareTail(f) == More(t, WithoutBareTail(rest));
        DecodeOne(t, rest, failsafe);
        var flat := if t.Group? then Flatten(t.members) else [];
        CutFirst(Avp(RecordOf(t), flat), Records(WithoutBareTail(rest)), FAILSAFE_LIMIT - failsafe);
        if |flat| < FAILSAFE_LIMIT - failsafe {
          DecodePrintedFrom(rest, failsafe + 1 + |flat|);
        }
      }
    }
  }

  /** The number of AVPs in a forest, at every depth. */
  function Size(f: Forest): nat {
    match f
    case Empty => 0
    case More(first, rest) => 1 + (if first.Group? then Size(first.members) else 0) + Size(rest)
  }

  lemma {:induction false} FlattenSize(f: Forest)
    ensures |Flatten(f)| == Size(f)
  {
    hide RecordOf;
    if f.More? {
      FlattenSize(f.rest);
      if f.first.Group? {
        FlattenSize(f.first.members);
      }
    }
  }

  lemma {:induction false} RecordsSize(f: Forest)
    ensures Nodes(Records(f)) == Size(f)
  {
    hide RecordOf;
    if f.More? {
      RecordsSize(f.rest);
      if f.first.Group? {
        FlattenSize(f.first.members);
      }
      assert Records(f)[1..] == Records(f.rest);
    }
  }

  lemma {:induction false} CutNodes(avps: seq<Avp>, budget: nat)
    ensures Nodes(avps) <= budget ==> Cut(avps, budget) == avps
    ensures Nodes(Cut(avps, budget)) == if Nodes(avps) <= budget then Nodes(avps) else budget
    decreases |avps|
  {
    if avps != [] && budget > 0 {
      if |avps[0].subs| < budget {
        CutNodes(avps[1..], budget - 1 - |avps[0].subs|);
        assert Cut(avps, budget)[1..] == Cut(avps[1..], budget - 1 - |avps[0].subs|);
        assert [avps[0]] + avps[1..] == avps;
      } else {
        assert Cut(avps, budget)[1..] == [];
      }
    }
  }

  lemma {:induction false} BareTailSize(f: Forest)
    ensures if BareTail(f) then Size(WithoutBareTail(f)) < Size(f) else WithoutBareTail(f) == f
  {
    hide LengthOf;
    if f.More? && f.rest.More? {
      BareTailSize(f.rest);
    }
  }

  /** Decoding a printed forest: the records of its trees, short of a last AVP
      that is a bare header, and never more than a hundred nodes. */
  lemma DecodePrinted(f: Forest)
    requires ForestOk(f)
    ensures Decode(Print(f)) == Cut(Records(WithoutBareTail(f)), 100)
  {
    DecodePrintedFrom(f, 0);
  }

  // ------------------------------------- leaves that are taken for groups

  /** Fields that print and, inside groups, flags the decoder knows; nothing is said of what a
      leaf looks like. */
  predicate Fits(f: Forest, inside: bool) {
    f.More? ==>
      && FieldsOk(f.first) && (inside ==> f.first.head.flags in KNOWN_FLAGS)
      && (f.first.Group? ==> Fits(f.first.members, true)) && Fits(f.rest, inside)
  }

  /** No leaf, at any depth, is taken for a group. */
  predicate NoFalseGroup(f: Forest) {
    f.More? ==>
      && (f.first.Leaf? ==> !LooksLikeAvp(f.first.payload))
      && (f.first.Group? ==> NoFalseGroup(f.first.members)) && NoFalseGroup(f.rest)
  }

  lemma {:induction false} OkIsNoFalseGroup(f: Forest)
    requires Fits(f, false)
    ensures ForestOk(f) <==> NoFalseGroup(f)
    decreases f
  {
    hide FieldsOk, LooksLikeAvp;
    if f.More? {
      OkIsNoFalseGroup(f.rest);
      if f.first.Group? {
        InsideOkIsNoFalseGroup(f.first.members);
      }
    }
  }

  lemma {:induction false} InsideOkIsNoFalseGroup(f: Forest)
    requires Fits(f, true)
    ensures InsideOk(f) <==> NoFalseGroup(f)
    decreases f
  {
    hide FieldsOk, LooksLikeAvp;
    if f.More? {
      InsideOkIsNoFalseGroup(f.rest);
      if f.first.Group? {
        InsideOkIsNoFalseGroup(f.first.members);
      }
    }
  }

  predicate AllFit(st: seq<Forest>) {
    forall i :: 0 <= i < |st| ==> st[i].More? && Fits(st[i], true)
  }

  predicate SomeFalseGroup(st: seq<Forest>) {
    exists i :: 0 <= i < |st| && !NoFalseGroup(st[i])
  }

  /** The guess is right, or there is nothing to blank. */
  predicate SeenRight(t: Tree) {
    if t.Leaf? then !LooksLikeAvp(t.payload) else LooksLikeAvp(Content(t)) || Content(t) == ""
  }

  /** What the first AVP of a printed list is read as, whether or not it is what it looks like. */
  lemma ReadAny(t: Tree, rest: Forest)
    requires FieldsOk(t)
    ensures var data := Print(More(t, rest));
            var a := ReadAvp(data);
            && a.Some? && a.value.data == Content(t) && a.value.length == LengthOf(t) && After(data, LengthOf(t)) == Print(rest)
            && (LooksLikeAvp(Content(t)) ==> Blanked(a.value).data == "")
            && (SeenRight(t) ==> Blanked(a.value) == RecordOf(t))
  {
    hide LooksLikeAvp, ReadAvp, After, PrintAvp, FieldsOk;
    ReadPrinted(t, Print(rest));
  }

  /** A list of AVPs inside a group passes the test exactly when it is not empty, whatever its
      leaves look like. */
  lemma InsideLooks(f: Forest)
    requires Fits(f, true)
    ensures LooksLikeAvp(Print(f)) <==> f.More?
    ensures f.Empty? ==> Print(f) == ""
  {
    hide FixedHex, Content, ParseInt, PrintAvp, Pow16;
    if f.More? {
      ReadPrinted(f.first, Print(f.rest));
    } else {
      NothingLooksLikeAvp();
    }
  }

  /** The stack machine, started on lists one of which holds such a leaf, never yields their
      flattening: it does not even begin with it.  Whatever lies below on the stack is not reached
      before. */
  lemma {:induction false} FalseGroupSpoils(junk: seq<string>, st: seq<Forest>, failsafe: nat)
    requires failsafe <= FAILSAFE_LIMIT && AllFit(st) && SomeFalseGroup(st)
    ensures !(FlattenAll(st) <= UnpackSpec(junk + PrintAll(st), failsafe).subs)
    decreases FAILSAFE_LIMIT - failsafe
  {
    hide LooksLikeAvp, ReadAvp, After, PrintAvp, Blanked, PushBoth, RecordOf, Print, Flatten, NextStack, Fits, NoFalseGroup,
         FlattenAll, PrintAll, Content, FieldsOk;
    var below, top := st[..|st| - 1], st[|st| - 1];
    assert st == below + [top];
    PushAll(below, top);
    var text := junk + PrintAll(st);
    assert text[|text| - 1] == Print(top) && text[..|text| - 1] == junk + PrintAll(below);
    NextStackFlattens(below, top);
    var a := ReadAvp(Print(top));
    StepRead(junk, below, top);
    if failsafe == FAILSAFE_LIMIT {
      assert UnpackSpec(text, failsafe).subs == [];
    } else if FalseLeaf(top.first) {
      assert UnpackSpec(text, failsafe).subs[0] != FlattenAll(st)[0];
    } else {
      StillSpoiled(below, top);
      FalseGroupSpoils(junk, NextStack(below, top), failsafe + 1);
      PrefixRest(RecordOf(top.first), FlattenAll(NextStack(below, top)),
                 UnpackSpec(junk + PrintAll(NextStack(below, top)), failsafe + 1).subs);
    }
  }

  predicate FalseLeaf(t: Tree) {
    t.Leaf? && LooksLikeAvp(t.payload)
  }

  lemma PrefixRest<T>(x: T, a: seq<T>, b: seq<T>)
    ensures [x] + a <= [x] + b ==> a <= b
  {
    if [x] + a <= [x] + b {
      forall i | 0 <= i < |a|
        ensures a[i] == b[i]
      {
        assert ([x] + a)[i + 1] == ([x] + b)[i + 1];
      }
    }
  }

  /** One step of the machine on top of whatever else is on the stack. */
  lemma StepRead(junk: seq<string>, below: seq<Forest>, top: Forest)
    requires top.More? && Fits(top, true)
    ensures var a := ReadAvp(Print(top));
            && a.Some?
            && if FalseLeaf(top.first) then Blanked(a.value) != RecordOf(top.first)
               else Blanked(a.value) == RecordOf(top.first)
                    && PushBoth(junk + PrintAll(below), a.value, Print(top)) == junk + PrintAll(NextStack(below, top))
  {
    hide LooksLikeAvp, ReadAvp, After, PrintAvp, FieldsOk, PrintAll, FlattenAll;
    var t, rest := top.first, top.rest;
    ReadAny(t, rest);
    InsideLooks(rest);
    if FalseLeaf(t) {
      NothingLooksLikeAvp();
    } else {
      InsideLooks(Inside(t));
      PushAny(below, Inside(t));
      PushAny(below + IfAny(Inside(t)), rest);
      assert PrintAll(below) + [] == PrintAll(below);
      assert forall x: string :: (junk + PrintAll(below)) + [x] == junk + (PrintAll(below) + [x]);
      assert forall x: string, y: string :: ((junk + PrintAll(below)) + [x]) + [y] == junk + ((PrintAll(below) + [x]) + [y]);
    }
  }

  lemma StillSpoiled(below: seq<Forest>, top: Forest)
    requires top.More? && AllFit(below + [top]) && SomeFalseGroup(below + [top]) && !FalseLeaf(top.first)
    ensures AllFit(NextStack(below, top)) && SomeFalseGroup(NextStack(below, top))
  {
    hide LooksLikeAvp, FieldsOk;
    var st, next := below + [top], NextStack(below, top);
    assert st[|below|] == top;
    forall i | 0 <= i < |next|
      ensures next[i].More? && Fits(next[i], true)
    {
      assert i < |below| ==> next[i] == st[i];
    }
    var i :| 0 <= i < |st| && !NoFalseGroup(st[i]);
    if i < |below| {
      assert next[i] == st[i];
    } else if !NoFalseGroup(Inside(top.first)) {
      assert next[|below|] == Inside(top.first);
    } else {
      assert !NoFalseGroup(top);
      assert !NoFalseGroup(top.rest);
      assert next[|next| - 1] == top.rest;
    }
  }

  /** A top-level AVP that holds such a leaf is never decoded to its record, whatever is left on
      the stack and however often an exception makes the loop try it again. */
  lemma {:induction false} FalseGroupSpoilsRecord(t: Tree, rest: Forest, stack: seq<string>, failsafe: nat)
    requires failsafe <= FAILSAFE_LIMIT + 1 && FieldsOk(t) && Fits(Inside(t), true)
    requires FalseLeaf(t) || !NoFalseGroup(Inside(t))
    ensures var avps := DecodeSpec(Print(More(t, rest)), stack, failsafe);
            avps != [] ==> avps[0] != Avp(RecordOf(t), Flatten(Inside(t)))
    decreases FAILSAFE_LIMIT + 1 - failsafe
  {
    hide LooksLikeAvp, ReadAvp, After, PrintAvp, Blanked, RecordOf, Flatten, Fits, NoFalseGroup, UnpackSpec, Print, Content, FieldsOk;
    ReadAny(t, rest);
    var data := Print(More(t, rest));
    if |data| > 16 && failsafe < FAILSAFE_LIMIT {
      var a := ReadAvp(data).value;
      assert LooksLikeAvp(a.data) by { SpoiledLooks(t); }
      var u := UnpackSpec(stack + [a.data], failsafe + 1);
      if u.raised {
        FalseGroupSpoilsRecord(t, rest, u.stack, u.failsafe);
      } else if FalseLeaf(t) {
        assert Blanked(a) != RecordOf(t) by { FalseLeafRecord(t); }
      } else {
        SpoiledContent(t, stack, failsafe + 1);
      }
    }
  }

  lemma SpoiledLooks(t: Tree)
    requires Fits(Inside(t), true) && (FalseLeaf(t) || !NoFalseGroup(Inside(t)))
    ensures LooksLikeAvp(Content(t))
  {
    hide LooksLikeAvp, FieldsOk, PrintAvp;
    InsideLooks(Inside(t));
  }

  lemma FalseLeafRecord(t: Tree)
    requires FalseLeaf(t)
    ensures RecordOf(t).data != ""
  {
    NothingLooksLikeAvp();
  }

  lemma SpoiledContent(t: Tree, stack: seq<string>, failsafe: nat)
    requires failsafe <= FAILSAFE_LIMIT && Fits(Inside(t), true) && !NoFalseGroup(Inside(t))
    ensures UnpackSpec(stack + [Content(t)], failsafe).subs != Flatten(Inside(t))
  {
    hide LooksLikeAvp, FieldsOk, PrintAvp, UnpackSpec, Flatten;
    var st := [t.members];
    assert st[0] == t.members;
    PushAll([], t.members);
    assert [] + st == st;
    assert PrintAll(st) == [Content(t)];
    FalseGroupSpoils(stack, st, failsafe);
    assert Flatten(t.members) + [] == Flatten(t.members);
  }

  /** A leaf of eight bytes that looks like the front of an AVP with a vendor raises whenever it is
      unpacked, for want of the vendor's number.  The decoder tries it again until the failsafe is
      used up, so neither that leaf nor anything behind it is decoded. */
  lemma {:induction false} RaisingLeafBlocks(t: Tree, after: string, failsafe: nat)
    requires FieldsOk(t) && t.Leaf? && |t.payload| == 16 && LooksLikeAvp(t.payload) && (t.payload[8..10] == "c0" || t.payload[8..10] == "80")
    requires failsafe <= 100 && failsafe % 2 == 0
    ensures DecodeSpec(PrintAvp(t.head, Content(t)) + after, [], failsafe) == []
    decreases 100 - failsafe
  {
    hide PrintAvp, FieldsOk, ReadAvp, LooksLikeAvp, After, UnpackSpec;
    ReadPrinted(t, after);
    if failsafe < 100 {
      assert [] + [t.payload] == [t.payload];
      RaisesAtOnce(t.payload, failsafe + 1);
      RaisingLeafBlocks(t, after, failsafe + 2);
    }
  }

  lemma RaisesAtOnce(payload: string, failsafe: nat)
    requires |payload| == 16 && (payload[8..10] == "c0" || payload[8..10] == "80") && failsafe < 100
    ensures UnpackSpec([payload], failsafe) == Unpacked([], [], failsafe + 1, true)
  {
    hide ReadAvp;
    NothingRead(payload);
    assert [payload][..0] == [];
  }

  lemma NothingRead(payload: string)
    requires |payload| == 16 && (payload[8..10] == "c0" || payload[8..10] == "80")
    ensures ReadAvp(payload).None?
  {
    assert Slice(payload, 8, 10) == payload[8..10];
    assert Slice(payload, 16, 24) == "";
    NoNumber();
  }

  lemma NoNumber()
    ensures ParseInt(Hexadecimal, "").None?
  {
  }

  /** Only forests without such a leaf are decoded to their records. */
  lemma {:induction false} FalseGroupSpoilsDecoding(f: Forest, failsafe: nat)
    requires failsafe <= FAILSAFE_LIMIT + 1 && Fits(f, false) && !NoFalseGroup(f)
    ensures DecodeSpec(Print(f), [], failsafe) != Records(f)
    decreases f
  {
    hide LooksLikeAvp, ReadAvp, After, PrintAvp, LengthOf, RecordOf, Blanked, Flatten, Content, UnpackSpec, FieldsOk;
    var t, rest := f.first, f.rest;
    var avps := DecodeSpec(Print(f), [], failsafe);
    var flat := if t.Group? then Flatten(t.members) else [];
    EmptyFlattens();
    if FalseLeaf(t) || !NoFalseGroup(Inside(t)) {
      FalseGroupSpoilsRecord(t, rest, [], failsafe);
      assert Records(f)[0] == Avp(RecordOf(t), flat);
    } else if |Print(f)| > 16 && failsafe < FAILSAFE_LIMIT {
      hide DecodeSpec;
      assert TreeOk(t) by { InsideOkIsNoFalseGroup(Inside(t)); }
      DecodeOne(t, rest, failsafe);
      if |flat| < FAILSAFE_LIMIT - failsafe {
        FalseGroupSpoilsDecoding(rest, failsafe + 1 + |flat|);
        assert avps[1..] == DecodeSpec(Print(rest), [], failsafe + 1 + |flat|) && Records(f)[1..] == Records(rest);
      } else {
        assert |avps[0].subs| < |flat|;
      }
    } else {
      assert avps == [];
    }
  }

  /** The decoder inverts the printer exactly on the forests of at most a
      hundred AVPs that do not end in a bare header and in which no leaf is
      taken for a group. */
  lemma RoundTrip(f: Forest)
    requires Fits(f, false)
    ensures Decode(Print(f)) == Records(f) <==> Size(f) <= 100 && !BareTail(f) && NoFalseGroup(f)
  {
    hide ForestOk, BareTail, WithoutBareTail, Cut, Records, Size, Print, DecodeSpec, Fits, NoFalseGroup;
    if NoFalseGroup(f) {
      OkIsNoFalseGroup(f);
      OkRoundTrip(f);
    } else {
      FalseGroupSpoilsDecoding(f, 0);
    }
  }

  lemma OkRoundTrip(f: Forest)
    requires ForestOk(f)
    ensures Decode(Print(f)) == Records(f) <==> Size(f) <= 100 && !BareTail(f)
  {
    hide ForestOk, BareTail, WithoutBareTail, Cut, Records, Size, Print, Decode;
    DecodePrinted(f);
    BareTailSize(f);
    RecordsSize(f);
    RecordsSize(WithoutBareTail(f));
    CutNodes(Records(WithoutBareTail(f)), FAILSAFE_LIMIT);
  }
}
