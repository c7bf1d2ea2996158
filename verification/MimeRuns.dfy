module MimeRuns {
  // Whole runs of the header store: what removing dup lists does, what
  // `mime_hdr_prepare_for_value_set` promises, and the agreement of index and scan
  // after every sequence of operations.

  import opened MimeTokens
  import opened MimeStore

  // --------------------------------------------------------- removing dup lists

  lemma DestroyKeepsInv(t: TokenTable, h: Hdr, i: nat)
    requires Inv(t, h) && i < |h.slots| && h.slots[i].readiness.Detached?
    ensures Inv(t, Destroy(h, i))
  {
    var h' := Destroy(h, i);
    var n := h.slots[i].name;
    forall from: nat
      ensures NextMatch(h'.slots, n, from) == NextMatch(h.slots, n, from)
    {
      NextUnique(h'.slots, n, from, NextMatch(h.slots, n, from));
    }
    IndexUnmoved(t, h, h'.slots, n);
    OneNameChanged(t, h, h', n);
  }

  /** Detach field `i` (`mime_hdr_field_detach`) and, if `delete`, destroy it. */
  function Remove(t: TokenTable, h: Hdr, i: nat, delete: bool): (h': Hdr)
    requires Inv(t, h) && i < |h.slots| && h.slots[i].readiness.Live?
    ensures Inv(t, h') && |h'.slots| == |h.slots|
  {
    DetachKeepsInv(t, h, i);
    DestroyKeepsInv(t, Detach(t, h, i), i);
    if delete then Delete(t, h, i) else Detach(t, h, i)
  }

  /** Remove field `i` and every dup behind it. */
  function RemoveAll(t: TokenTable, h: Hdr, i: nat, delete: bool): (h': Hdr)
    requires Inv(t, h) && i < |h.slots| && h.slots[i].readiness.Live?
    ensures Inv(t, h') && |h'.slots| == |h.slots|
    decreases |h.slots| - i
  {
    var nx := h.slots[i].next;
    var h1 := Remove(t, h, i, delete);
    if nx == NONE then h1 else RemoveAll(t, h1, nx, delete)
  }

  // j keeps its place, its name and its text.
  ghost predicate SameText(s: seq<Field>, s': seq<Field>) {
    && |s'| == |s|
    && forall j :: 0 <= j < |s| ==> s'[j].name == s[j].name && s'[j].value == s[j].value
  }

  // Exactly the fields that satisfy gone left the header.
  ghost predicate Left(s: seq<Field>, s': seq<Field>, n: Name, from: nat, to: int, delete: bool) {
    && SameText(s, s')
    && forall j :: 0 <= j < |s| ==>
         s'[j].readiness == if Matches(s[j], n) && from <= j && (to == NONE || j < to)
                            then (if delete then Deleted else Detached) else s[j].readiness
  }

  lemma DetachEffect(t: TokenTable, h: Hdr, i: nat)
    requires Inv(t, h) && i < |h.slots| && h.slots[i].readiness.Live?
    ensures SameText(h.slots, Detach(t, h, i).slots)
    ensures forall j :: 0 <= j < |h.slots| ==>
      Detach(t, h, i).slots[j].readiness == if j == i then Detached else h.slots[j].readiness
  {
  }

  lemma RemoveEffect(t: TokenTable, h: Hdr, i: nat, delete: bool)
    requires Inv(t, h) && i < |h.slots| && h.slots[i].readiness.Live?
    ensures Left(h.slots, Remove(t, h, i, delete).slots, h.slots[i].name, i, h.slots[i].next, delete)
  {
    hide HeadsFlagged, AccelExact, LooseEnds, LiveMask, Detach;
    var s, s' := h.slots, Remove(t, h, i, delete).slots;
    DetachEffect(t, h, i);
    forall j | 0 <= j < |s|
      ensures s'[j].readiness == if Matches(s[j], s[i].name) && i <= j && (s[i].next == NONE || j < s[i].next)
                                 then (if delete then Deleted else Detached) else s[j].readiness
    {
    }
  }

  /** Removing the dup list from field `i` takes out every live field of that name from
      slot `i` on, and nothing else. */
  lemma {:induction false} RemoveAllEffect(t: TokenTable, h: Hdr, i: nat, delete: bool)
    requires Inv(t, h) && i < |h.slots| && h.slots[i].readiness.Live?
    ensures Left(h.slots, RemoveAll(t, h, i, delete).slots, h.slots[i].name, i, NONE, delete)
    decreases |h.slots| - i
  {
    hide HeadsFlagged, AccelExact, LooseEnds, LiveMask, Remove;
    RemoveEffect(t, h, i, delete);
    var nx := h.slots[i].next;
    if nx != NONE {
      RemoveAllEffect(t, Remove(t, h, i, delete), nx, delete);
    }
  }

  // ----------------------------------------------------- preparing for a new value

  datatype Prepared = Prepared(hdr: Hdr, slot: nat)

  // Create and attach a field whose name is absent.
  function AddNew(t: TokenTable, h: Hdr, n: Name): (r: Prepared)
    requires Inv(t, h) && NextMatch(h.slots, n, 0) == NONE
    ensures Inv(t, r.hdr) && r.slot == |h.slots|
  {
    CreateKeepsInv(t, h, n, "");
    AttachKeepsInv(t, Create(h, n, ""), |h.slots|, false, NONE);
    Prepared(Attach(t, Create(h, n, ""), |h.slots|, false, NONE), |h.slots|)
  }

  /** `mime_hdr_prepare_for_value_set`. */
  function Prepare(t: TokenTable, h: Hdr, n: Name, wks: bool): (r: Prepared)
    requires Inv(t, h)
    ensures Inv(t, r.hdr)
  {
    FindIsScan(t, h, n, wks);
    var f := Find(t, h, n, wks);
    if f == NONE then AddNew(t, h, n)
    else if h.slots[f].next != NONE then
      var h1 := RemoveAll(t, h, f, true);
      RemoveAllEffect(t, h, f, true);
      NextUnique(h1.slots, n, 0, NONE);
      AddNew(t, h1, n)
    else Prepared(h, f)
  }

  // A slot that is not live changes no scan.
  lemma CreateKeepsScan(s: seq<Field>, f: Field, n: Name, from: nat)
    requires !f.readiness.Live?
    ensures NextMatch(s + [f], n, from) == NextMatch(s, n, from)
  {
    NextUnique(s + [f], n, from, NextMatch(s, n, from));
  }

  lemma CreateKeepsMask(t: TokenTable, s: seq<Field>, f: Field)
    requires !f.readiness.Live?
    ensures LiveMask(t, s + [f]) == LiveMask(t, s)
  {
    var s' := s + [f];
    forall b | b in LiveMask(t, s)
      ensures b in LiveMask(t, s')
    {
      var j :| 0 <= j < |s| && s[j].readiness.Live? && s[j].name.Token?
            && t.bit(s[j].name.wks) >= 0 && t.bit(s[j].name.wks) == b;
      assert s'[j] == s[j];
    }
  }

  lemma CreateKeepsInv(t: TokenTable, h: Hdr, n: Name, value: string)
    requires Inv(t, h)
    ensures Inv(t, Create(h, n, value))
    ensures forall m, from: nat :: NextMatch(Create(h, n, value).slots, m, from) == NextMatch(h.slots, m, from)
  {
    var f := Field(n, value, Detached, false, NONE);
    var s, s' := h.slots, h.slots + [f];
    forall m, from: nat
      ensures NextMatch(s', m, from) == NextMatch(s, m, from)
    {
      CreateKeepsScan(s, f, m, from);
    }
    CreateKeepsMask(t, s, f);
    assert Chained(s') && HeadsFlagged(s') && LooseEnds(s') && AccelExact(t, h.accel, s');
  }

  lemma AddNewEffect(t: TokenTable, h: Hdr, n: Name)
    requires Inv(t, h) && NextMatch(h.slots, n, 0) == NONE
    ensures var r := AddNew(t, h, n);
      && |r.hdr.slots| == |h.slots| + 1 && Matches(r.hdr.slots[r.slot], n)
      && forall j :: 0 <= j < |h.slots| ==> r.hdr.slots[j] == h.slots[j]
  {
    CreateKeepsInv(t, h, n, "");
  }

  // Fields of other names are as live as before.
  ghost predicate OthersKept(s: seq<Field>, s': seq<Field>, n: Name) {
    && |s| <= |s'|
    && forall j :: 0 <= j < |s| ==>
         s'[j].name == s[j].name && (s[j].name != n ==> s'[j].readiness == s[j].readiness)
  }

  lemma ReplaceLeavesOne(t: TokenTable, h: Hdr, n: Name, f: nat)
    requires Inv(t, h) && f == NextMatch(h.slots, n, 0)
    ensures NextMatch(RemoveAll(t, h, f, true).slots, n, 0) == NONE
    ensures OthersKept(h.slots, RemoveAll(t, h, f, true).slots, n)
  {
    RemoveAllEffect(t, h, f, true);
    NextUnique(RemoveAll(t, h, f, true).slots, n, 0, NONE);
  }

  /** Afterwards exactly one live field has the name, and no field of another name changed. */
  lemma PrepareLeavesOne(t: TokenTable, h: Hdr, n: Name, wks: bool)
    requires Inv(t, h)
    ensures var r := Prepare(t, h, n, wks);
      && OthersKept(h.slots, r.hdr.slots, n)
      && forall j :: 0 <= j < |r.hdr.slots| ==> (Matches(r.hdr.slots[j], n) <==> j == r.slot)
  {
    hide HeadsFlagged, AccelExact, LooseEnds, LiveMask, RemoveAll, Find, AddNew;
    FindIsScan(t, h, n, wks);
    var f := Find(t, h, n, wks);
    if f == NONE {
      AddNewEffect(t, h, n);
    } else if h.slots[f].next != NONE {
      ReplaceLeavesOne(t, h, n, f);
      AddNewEffect(t, RemoveAll(t, h, f, true), n);
    }
  }

  // ---------------------------------------------------------------------- runs

  datatype Op =
    | New(name: Name, value: string)
    | Join(slot: nat, check: bool, prev: int)
    | Leave(slot: nat, all: bool, delete: bool)
    | Ready(name: Name, wks: bool)

  /** What each operation demands of its caller, with the slot-order guard on attach. */
  ghost predicate Legal(h: Hdr, op: Op) {
    match op
    case New(_, _) => true
    case Join(i, check, prev) =>
      && AttachArgs(h.slots, i, check, prev)
      && (h.slots[i].readiness.Detached? ==> InsertInOrder(h.slots, i))
    case Leave(i, _, _) => i < |h.slots| && h.slots[i].readiness.Live?
    case Ready(_, _) => true
  }

  ghost function Apply(t: TokenTable, h: Hdr, op: Op): (h': Hdr)
    requires Inv(t, h) && Legal(h, op)
    ensures Inv(t, h')
  {
    match op
    case New(n, v) => CreateKeepsInv(t, h, n, v); Create(h, n, v)
    case Join(i, check, prev) => AttachKeepsInv(t, h, i, check, prev); Attach(t, h, i, check, prev)
    case Leave(i, all, delete) => if all then RemoveAll(t, h, i, delete) else Remove(t, h, i, delete)
    case Ready(n, wks) => Prepare(t, h, n, wks).hdr
  }

  ghost predicate LegalRun(t: TokenTable, h: Hdr, ops: seq<Op>)
    requires Inv(t, h)
    decreases |ops|
  {
    |ops| == 0 || (Legal(h, ops[0]) && LegalRun(t, Apply(t, h, ops[0]), ops[1..]))
  }

  ghost function Run(t: TokenTable, h: Hdr, ops: seq<Op>): (h': Hdr)
    requires Inv(t, h) && LegalRun(t, h, ops)
    ensures Inv(t, h')
    decreases |ops|
  {
    if |ops| == 0 then h else Run(t, Apply(t, h, ops[0]), ops[1..])
  }

  lemma InitInv(t: TokenTable)
    requires t.Consistent()
    ensures Inv(t, Init())
  {
  }

  /** The dups reached from field `k` by following the next-dup pointers. */
  function DupList(s: seq<Field>, k: int): (l: seq<int>)
    requires Chained(s)
    requires k == NONE || (0 <= k < |s| && s[k].readiness.Live?)
    decreases if k == NONE then 0 else |s| - k
  {
    if k == NONE then [] else [k] + DupList(s, s[k].next)
  }

  /** All live fields named `n` from slot `from` on, by scanning. */
  function Scan(s: seq<Field>, n: Name, from: nat): (l: seq<int>)
    decreases |s| - from
  {
    if from >= |s| then []
    else if Matches(s[from], n) then [from] + Scan(s, n, from + 1)
    else Scan(s, n, from + 1)
  }

  lemma {:induction false} ScanSkips(s: seq<Field>, n: Name, from: nat)
    ensures Scan(s, n, from) == if NextMatch(s, n, from) == NONE then [] else Scan(s, n, NextMatch(s, n, from))
    decreases |s| - from
  {
    if from < |s| && !Matches(s[from], n) {
      ScanSkips(s, n, from + 1);
    }
  }

  lemma {:induction false} DupListIsScan(s: seq<Field>, n: Name, from: nat)
    requires Chained(s)
    ensures DupList(s, NextMatch(s, n, from)) == Scan(s, n, from)
    decreases |s| - from
  {
    ScanSkips(s, n, from);
    var k := NextMatch(s, n, from);
    if k != NONE {
      DupListIsScan(s, n, k + 1);
    }
  }

  /** After every legal run on a header in good order (a fresh one is, `InitInv`): lookup through the index finds the first
      live field of the name, following the dups from there yields all of them in slot
      order, and the presence bits are the union of the live fields' masks. */
  lemma EveryRunAgrees(t: TokenTable, start: Hdr, ops: seq<Op>, n: Name, wks: bool)
    requires Inv(t, start) && LegalRun(t, start, ops)
    ensures var h := Run(t, start, ops);
      && Find(t, h, n, wks) == NextMatch(h.slots, n, 0)
      && DupList(h.slots, NextMatch(h.slots, n, 0)) == Scan(h.slots, n, 0)
      && h.presence == LiveMask(t, h.slots)
  {
    var h := Run(t, start, ops);
    FindIsScan(t, h, n, wks);
    DupListIsScan(h.slots, n, 0);
  }

  // ------------------------------------------------------ the order guard is needed

  /** Four same-named fields, attached in the order 0, 1, 3, 2: the walk passes slot 3
      and the chain ends 3, 2. */
  lemma AttachBreaksOrder(n: Name, v: string)
    ensures var live := (j: int) => Field(n, v, Live, j == 0, if j == 0 then 1 else if j == 1 then 3 else NONE);
      var s := [live(0), live(1), Field(n, v, Detached, false, NONE), live(3)];
      && Chained(s) && HeadsFlagged(s) && LooseEnds(s)
      && !InsertInOrder(s, 2)
      && WalkEnd(s, 0, 2) == 3
  {
    var live := (j: int) => Field(n, v, Live, j == 0, if j == 0 then 1 else if j == 1 then 3 else NONE);
    var s := [live(0), live(1), Field(n, v, Detached, false, NONE), live(3)];
    NextUnique(s, n, 0, 0);
    NextUnique(s, n, 1, 1);
    NextUnique(s, n, 2, 3);
    NextUnique(s, n, 4, NONE);
  }
}
