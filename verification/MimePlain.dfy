module MimePlain {
  // The header store without its index: a list of rows, each a name, a value and a
  // readiness. Every operation on the indexed store does to the rows exactly what the
  // plain operation does, over whole runs; so nothing the caller can see depends on dup
  // pointers, presence bits or accelerators.

  import opened MimeTokens
  import opened MimeStore
  import opened MimeRuns

  datatype Row = Row(name: Name, value: string, readiness: Readiness)

  function RowOf(f: Field): (r: Row) {
    Row(f.name, f.value, f.readiness)
  }

  function Rows(s: seq<Field>): (rs: seq<Row>)
    ensures |rs| == |s| && forall j :: 0 <= j < |s| ==> rs[j] == RowOf(s[j])
  {
    seq(|s|, j requires 0 <= j < |s| => RowOf(s[j]))
  }

  // -------------------------------------------------------------- plain operations

  /** A new row at the end. */
  function PlainCreate(rs: seq<Row>, n: Name, value: string): (rs': seq<Row>) {
    rs + [Row(n, value, Detached)]
  }

  /** A detached row comes alive; its name and value stay. */
  function PlainAttach(rs: seq<Row>, i: nat): (rs': seq<Row>)
    requires i < |rs|
  {
    if rs[i].readiness.Detached? then rs[i := rs[i].(readiness := Live)] else rs
  }

  predicate LiveNamed(r: Row, n: Name) {
    r.readiness.Live? && r.name == n
  }

  /** Row `i`, or every live row of its name from `i` on, leaves the header. */
  function PlainRemove(rs: seq<Row>, i: nat, all: bool, delete: bool): (rs': seq<Row>)
    requires i < |rs|
    ensures |rs'| == |rs|
  {
    seq(|rs|, j requires 0 <= j < |rs| =>
      if j == i || (all && j > i && LiveNamed(rs[j], rs[i].name))
      then rs[j].(readiness := if delete then Deleted else Detached) else rs[j])
  }

  /** The first live row of the name, or NONE. */
  function PlainFind(rs: seq<Row>, n: Name, from: nat): (r: int)
    requires from <= |rs|
    ensures r == NONE || from <= r < |rs|
    decreases |rs| - from
  {
    if from == |rs| then NONE else if LiveNamed(rs[from], n) then from else PlainFind(rs, n, from + 1)
  }

  /** One live row of the name: the only one, or a new empty one in place of none or many. */
  function PlainPrepare(rs: seq<Row>, n: Name): (rs': seq<Row>) {
    var f := PlainFind(rs, n, 0);
    if f == NONE then rs + [Row(n, "", Live)]
    else if PlainFind(rs, n, f + 1) == NONE then rs
    else PlainRemove(rs, f, true, true) + [Row(n, "", Live)]
  }

  function PlainStep(rs: seq<Row>, op: Op): (rs': seq<Row>) {
    match op
    case New(n, v) => PlainCreate(rs, n, v)
    case Join(i, _, _) => if i < |rs| then PlainAttach(rs, i) else rs
    case Leave(i, all, delete) => if i < |rs| then PlainRemove(rs, i, all, delete) else rs
    case Ready(n, _) => PlainPrepare(rs, n)
  }

  function PlainRun(rs: seq<Row>, ops: seq<Op>): (rs': seq<Row>)
    decreases |ops|
  {
    if |ops| == 0 then rs else PlainRun(PlainStep(rs, ops[0]), ops[1..])
  }

  // ---------------------------------------------------------------------- refinement

  lemma {:induction false} FindPlain(s: seq<Field>, n: Name, from: nat)
    requires from <= |s|
    ensures PlainFind(Rows(s), n, from) == NextMatch(s, n, from)
    decreases |s| - from
  {
    if from < |s| {
      FindPlain(s, n, from + 1);
    }
  }

  /** Attaching changes the readiness of its own field and no name, no value and no other
      readiness, in every branch and also when it breaks the order of a chain. */
  lemma AttachEffect(t: TokenTable, h: Hdr, i: nat, check: bool, prev: int)
    requires Inv(t, h) && AttachArgs(h.slots, i, check, prev)
    ensures Rows(Attach(t, h, i, check, prev).slots) == PlainAttach(Rows(h.slots), i)
  {
    hide HeadsFlagged, AccelExact, LooseEnds, LiveMask, SetSlotNum;
    if h.slots[i].readiness.Detached? {
      HeadIsFirst(t, h, i, check, prev);
    }
  }

  lemma CreateEffect(h: Hdr, n: Name, value: string)
    ensures Rows(Create(h, n, value).slots) == PlainCreate(Rows(h.slots), n, value)
  {
  }

  lemma RemovalEffect(t: TokenTable, h: Hdr, i: nat, all: bool, delete: bool)
    requires Inv(t, h) && i < |h.slots| && h.slots[i].readiness.Live?
    ensures var h' := if all then RemoveAll(t, h, i, delete) else Remove(t, h, i, delete);
      Rows(h'.slots) == PlainRemove(Rows(h.slots), i, all, delete)
  {
    hide HeadsFlagged, AccelExact, LooseEnds, LiveMask, Remove, RemoveAll;
    if all {
      RemoveAllEffect(t, h, i, delete);
    } else {
      RemoveEffect(t, h, i, delete);
    }
  }

  lemma AddNewRows(t: TokenTable, h: Hdr, n: Name)
    requires Inv(t, h) && NextMatch(h.slots, n, 0) == NONE
    ensures Rows(AddNew(t, h, n).hdr.slots) == Rows(h.slots) + [Row(n, "", Live)]
  {
    hide HeadsFlagged, AccelExact, LooseEnds, LiveMask, Attach;
    CreateKeepsInv(t, h, n, "");
    CreateEffect(h, n, "");
    AttachEffect(t, Create(h, n, ""), |h.slots|, false, NONE);
  }

  lemma PrepareEffect(t: TokenTable, h: Hdr, n: Name, wks: bool)
    requires Inv(t, h)
    ensures Rows(Prepare(t, h, n, wks).hdr.slots) == PlainPrepare(Rows(h.slots), n)
  {
    hide HeadsFlagged, AccelExact, LooseEnds, LiveMask, RemoveAll, Find, AddNew, PlainFind;
    FindIsScan(t, h, n, wks);
    FindPlain(h.slots, n, 0);
    var f := NextMatch(h.slots, n, 0);
    if f == NONE {
      AddNewRows(t, h, n);
    } else {
      FindPlain(h.slots, n, f + 1);
      if h.slots[f].next != NONE {
        ReplaceLeavesOne(t, h, n, f);
        RemovalEffect(t, h, f, true, true);
        AddNewRows(t, RemoveAll(t, h, f, true), n);
      }
    }
  }

  /** Every step of the indexed store is the plain step on its rows. */
  lemma StepIsPlain(t: TokenTable, h: Hdr, op: Op)
    requires Inv(t, h) && Legal(h, op)
    ensures Rows(Apply(t, h, op).slots) == PlainStep(Rows(h.slots), op)
  {
    hide Inv, Attach, Remove, RemoveAll, Prepare, PlainAttach, PlainRemove, PlainPrepare;
    match op
    case New(n, v) => CreateEffect(h, n, v);
    case Join(i, check, prev) => AttachEffect(t, h, i, check, prev);
    case Leave(i, all, delete) => RemovalEffect(t, h, i, all, delete);
    case Ready(n, wks) => PrepareEffect(t, h, n, wks);
  }

  /** Over every legal run the indexed store holds the rows the plain list holds, value for
      value, and its fast lookup finds the row a search of the plain list finds. */
  lemma {:induction false} RunIsPlain(t: TokenTable, h: Hdr, ops: seq<Op>, n: Name, wks: bool)
    requires Inv(t, h) && LegalRun(t, h, ops)
    ensures var h' := Run(t, h, ops); var rs := PlainRun(Rows(h.slots), ops);
      Rows(h'.slots) == rs && Find(t, h', n, wks) == PlainFind(rs, n, 0)
    decreases |ops|
  {
    hide Inv, Find, Apply, PlainStep, PlainFind;
    if |ops| == 0 {
      FindIsScan(t, h, n, wks);
      FindPlain(h.slots, n, 0);
    } else {
      StepIsPlain(t, h, ops[0]);
      RunIsPlain(t, Apply(t, h, ops[0]), ops[1..], n, wks);
    }
  }

  /** What attaching out of slot order does instead: the field becomes the last dup of its
      chain, after the one in the highest slot, and nothing else moves. */
  lemma AttachGoesLast(t: TokenTable, h: Hdr, i: nat, check: bool, prev: int)
    requires Inv(t, h) && AttachArgs(h.slots, i, check, prev)
    requires h.slots[i].readiness.Detached? && !InsertInOrder(h.slots, i)
    ensures var s, h', p := h.slots, Attach(t, h, i, check, prev), LastMatch(h.slots, h.slots[i].name);
      && h'.presence == h.presence && h'.accel == h.accel && |h'.slots| == |s| && p > i
      && h'.slots[p] == s[p].(next := i) && h'.slots[i] == s[i].(readiness := Live, dupHead := false, next := NONE)
      && forall j :: 0 <= j < |s| && j != i && j != p ==> h'.slots[j] == s[j]
  {
    hide AccelExact, LiveMask, SetSlotNum, HeadsFlagged, LooseEnds, SetIndex;
    HeadIsFirst(t, h, i, check, prev);
  }
}
