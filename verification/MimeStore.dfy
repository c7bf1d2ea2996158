module MimeStore {
  // The MIME header store as a value: an append-only table of field slots in which
  // same-named live fields are chained as dups, plus the presence bits and the slot
  // accelerators that make lookup fast. The operations here are the specification of
  // the methods of `MimeHeader.MimeHdr`; the lemmas prove that the index always agrees
  // with a plain scan.

  import opened MimeTokens

  /** A field name is a well-known token or any other text, lower-cased. */
  datatype Name = Token(wks: nat) | Text(lower: string)

  datatype Readiness = Empty | Detached | Live | Deleted

  /** A field slot. A pointer to a field is its slot number, that is
      16 * block + index; `next` is the next dup, `NONE` when there is none. */
  datatype Field = Field(name: Name, value: string, readiness: Readiness, dupHead: bool, next: int)

  datatype Hdr = Hdr(presence: set<int>, accel: Accelerators, slots: seq<Field>)

  const NONE := -1
  const BLOCK_SLOTS := 16
  const SLOTNUM_UNKNOWN := 14

  // ------------------------------------------------------------ the plain scan

  predicate Matches(f: Field, n: Name) {
    f.readiness.Live? && f.name == n
  }

  /** `r` is the first live field named `n` at or after slot `from`, or NONE. */
  ghost predicate IsNext(s: seq<Field>, n: Name, from: nat, r: int) {
    if r == NONE then
      forall j :: from <= j < |s| ==> !Matches(s[j], n)
    else
      && from <= r < |s|
      && Matches(s[r], n)
      && forall j :: from <= j < r ==> !Matches(s[j], n)
  }

  function NextMatch(s: seq<Field>, n: Name, from: nat): (r: int)
    ensures IsNext(s, n, from, r)
    ensures r >= -1
    decreases |s| - from
  {
    if from >= |s| then NONE
    else if Matches(s[from], n) then from
    else NextMatch(s, n, from + 1)
  }

  /** `r` is the last live field named `n`, or NONE. */
  ghost predicate IsLast(s: seq<Field>, n: Name, r: int) {
    && NONE <= r < |s|
    && (r >= 0 ==> Matches(s[r], n))
    && forall j :: r < j < |s| ==> !Matches(s[j], n)
  }

  function LastMatch(s: seq<Field>, n: Name): (r: int)
    ensures IsLast(s, n, r)
  {
    if |s| == 0 then NONE
    else if Matches(s[|s| - 1], n) then |s| - 1
    else LastMatch(s[..|s| - 1], n)
  }

  // ------------------------------------------------------------- the invariant

  /** Every live field points at the next live field of its name: dup chains are
      complete and strictly in slot order. */
  ghost predicate Chained(s: seq<Field>) {
    forall j :: 0 <= j < |s| && s[j].readiness.Live? ==> s[j].next == NextMatch(s, s[j].name, j + 1)
  }

  /** Exactly the first live field of each name carries the dup-head flag. */
  ghost predicate HeadsFlagged(s: seq<Field>) {
    forall j :: 0 <= j < |s| && s[j].readiness.Live? ==> (s[j].dupHead <==> NextMatch(s, s[j].name, 0) == j)
  }

  /** A field that is not in the header points nowhere. */
  ghost predicate LooseEnds(s: seq<Field>) {
    forall j :: 0 <= j < |s| && s[j].readiness.Detached? ==> s[j].next == NONE
  }

  /** The union of the presence masks of the live fields. */
  function LiveMask(t: TokenTable, s: seq<Field>): (m: set<int>) {
    set j | 0 <= j < |s| && s[j].readiness.Live? && s[j].name.Token? && t.bit(s[j].name.wks) >= 0
        :: t.bit(s[j].name.wks)
  }

  function AccelFor(slot: nat): (n: nat) {
    if slot < SLOTNUM_UNKNOWN then slot else SLOTNUM_UNKNOWN
  }

  /** The accelerator of a token that is present names its first field, or says "unknown". */
  ghost predicate AccelExact(t: TokenTable, a: Accelerators, s: seq<Field>) {
    forall w: nat :: 0 <= t.slotId(w) < 32 && NextMatch(s, Token(w), 0) != NONE
      ==> GetSlotNum(a, t.slotId(w)) == AccelFor(NextMatch(s, Token(w), 0))
  }

  ghost predicate Inv(t: TokenTable, h: Hdr) {
    && t.Consistent()
    && Chained(h.slots)
    && HeadsFlagged(h.slots)
    && LooseEnds(h.slots)
    && h.presence == LiveMask(t, h.slots)
    && AccelExact(t, h.accel, h.slots)
  }

  // --------------------------------------------------------------- operations

  function Init(): (h: Hdr) {
    Hdr({}, ALL_ONES, [])
  }

  /** The slot that slot number `k` names, if it is below the free top. */
  function BySlotNum(s: seq<Field>, k: nat): (r: int) {
    if k < |s| then k else NONE
  }

  /** `mime_hdr_field_find`: the presence check and the accelerator apply only when the
      caller passes a pointer into the token heap (`wks`). */
  function Find(t: TokenTable, h: Hdr, n: Name, wks: bool): (r: int)
    requires t.Consistent()
  {
    if n.Token? && wks then
      if t.bit(n.wks) >= 0 && t.bit(n.wks) !in h.presence then NONE
      else if t.slotId(n.wks) >= 0 && GetSlotNum(h.accel, t.slotId(n.wks)) != SLOTNUM_UNKNOWN then
        BySlotNum(h.slots, GetSlotNum(h.accel, t.slotId(n.wks)))
      else NextMatch(h.slots, n, 0)
    else NextMatch(h.slots, n, 0)
  }

  function SetIndex(t: TokenTable, h: Hdr, n: Name, slot: nat): (h': Hdr)
    requires t.Consistent()
  {
    if !n.Token? then h
    else h.(presence := h.presence + t.Mask(n.wks),
            accel := if t.slotId(n.wks) < 0 then h.accel
                     else SetSlotNum(h.accel, t.slotId(n.wks), AccelFor(slot)))
  }

  function UnsetIndex(t: TokenTable, h: Hdr, n: Name): (h': Hdr)
    requires t.Consistent()
  {
    if !n.Token? then h
    else h.(presence := h.presence - t.Mask(n.wks),
            accel := if t.slotId(n.wks) < 0 then h.accel
                     else SetSlotNum(h.accel, t.slotId(n.wks), SLOTNUM_UNKNOWN))
  }

  /** `mime_field_create` and `mime_field_name_set`: a new detached slot at the end. */
  function Create(h: Hdr, n: Name, value: string): (h': Hdr) {
    h.(slots := h.slots + [Field(n, value, Detached, false, NONE)])
  }

  /** The last dup of the chain that starts at `k`. */
  function LastDup(s: seq<Field>, k: nat): (r: nat)
    requires Chained(s) && k < |s| && s[k].readiness.Live?
    ensures k <= r < |s| && r == LastMatch(s, s[k].name)
    decreases |s| - k
  {
    if s[k].next == NONE then k else LastDup(s, s[k].next)
  }

  /** Where the insertion walk of `mime_hdr_field_attach` stops: the dup the new field
      goes behind. The walk compares the new slot with the second dup only, because its
      copy of the next slot number is never refreshed. */
  function WalkEnd(s: seq<Field>, head: nat, i: nat): (p: nat)
    requires Chained(s) && head < |s| && s[head].readiness.Live?
    ensures p < |s| && Matches(s[p], s[head].name)
  {
    if s[head].next == NONE || s[head].next > i then head else LastDup(s, head)
  }

  /** What callers owe `mime_hdr_field_attach`: without a dup check, `prev` is NONE only if
      the name is absent, and a flagged `prev` is a live field of that name. */
  ghost predicate AttachArgs(s: seq<Field>, i: nat, check: bool, prev: int) {
    && i < |s|
    && NONE <= prev < |s|
    && (!check && prev == NONE ==> NextMatch(s, s[i].name, 0) == NONE)
    && (!check && prev != NONE && s[prev].dupHead ==> Matches(s[prev], s[i].name))
  }

  function AttachHead(t: TokenTable, h: Hdr, i: nat, check: bool, prev: int): (head: int)
    requires t.Consistent() && i < |h.slots| && NONE <= prev < |h.slots|
  {
    if check || (prev != NONE && !h.slots[prev].dupHead) then Find(t, h, h.slots[i].name, true) else prev
  }

  function Attach(t: TokenTable, h: Hdr, i: nat, check: bool, prev: int): (h': Hdr)
    requires Inv(t, h) && AttachArgs(h.slots, i, check, prev)
  {
    if !h.slots[i].readiness.Detached? then h
    else
      HeadIsFirst(t, h, i, check, prev);
      AttachAt(t, h, i, AttachHead(t, h, i, check, prev))
  }

  /** Attach behind, or in front of, the dup chain that starts at `head`. */
  function AttachAt(t: TokenTable, h: Hdr, i: nat, head: int): (h': Hdr)
    requires Inv(t, h) && i < |h.slots| && h.slots[i].readiness.Detached?
    requires head == NextMatch(h.slots, h.slots[i].name, 0)
  {
    var s := h.slots;
    var f := s[i].(readiness := Live);
    if head == NONE then
      SetIndex(t, h.(slots := s[i := f.(dupHead := true)]), f.name, i)
    else if head > i then
      SetIndex(t, h.(slots := s[i := f.(dupHead := true, next := head)]
                                [head := s[head].(dupHead := false)]), f.name, i)
    else
      var p := WalkEnd(s, head, i);
      h.(slots := s[i := f.(dupHead := false, next := s[p].next)][p := s[p].(next := i)])
  }

  /** The dup whose next dup is `i`, found by walking the chain from `k`. */
  function Predecessor(s: seq<Field>, k: nat, i: nat): (p: nat)
    requires Chained(s) && k < i < |s| && s[k].readiness.Live? && Matches(s[i], s[k].name)
    ensures k <= p < i && Matches(s[p], s[k].name) && s[p].next == i
    decreases i - k
  {
    if s[k].next == i then k else Predecessor(s, s[k].next, i)
  }

  function Detach(t: TokenTable, h: Hdr, i: nat): (h': Hdr)
    requires Inv(t, h) && i < |h.slots| && h.slots[i].readiness.Live?
    ensures |h'.slots| == |h.slots|
  {
    var s := h.slots;
    var f := s[i].(readiness := Detached, next := NONE);
    var nx := s[i].next;
    if s[i].dupHead then
      if nx == NONE then UnsetIndex(t, h.(slots := s[i := f]), f.name)
      else SetIndex(t, h.(slots := s[i := f][nx := s[nx].(dupHead := true)]), f.name, nx)
    else
      var p := Predecessor(s, NextMatch(s, f.name, 0), i);
      h.(slots := s[i := f][p := s[p].(next := nx)])
  }

  function Destroy(h: Hdr, i: nat): (h': Hdr)
    requires i < |h.slots|
  {
    h.(slots := h.slots[i := h.slots[i].(readiness := Deleted)])
  }

  function Delete(t: TokenTable, h: Hdr, i: nat): (h': Hdr)
    requires Inv(t, h) && i < |h.slots| && h.slots[i].readiness.Live?
    ensures |h'.slots| == |h.slots|
  {
    Destroy(Detach(t, h, i), i)
  }

  // ------------------------------------------------------------- basic lemmas

  lemma NextUnique(s: seq<Field>, n: Name, from: nat, r: int)
    requires IsNext(s, n, from, r)
    ensures NextMatch(s, n, from) == r
  {
  }

  /** Lookup through the index gives exactly what a scan in slot order gives. */
  lemma FindIsScan(t: TokenTable, h: Hdr, n: Name, wks: bool)
    requires Inv(t, h)
    ensures Find(t, h, n, wks) == NextMatch(h.slots, n, 0)
  {
    if n.Token? && wks {
      var first := NextMatch(h.slots, n, 0);
      if first != NONE {
        assert t.bit(n.wks) >= 0 ==> t.bit(n.wks) in h.presence;
      }
    }
  }

  lemma HeadIsFirst(t: TokenTable, h: Hdr, i: nat, check: bool, prev: int)
    requires Inv(t, h) && AttachArgs(h.slots, i, check, prev)
    ensures AttachHead(t, h, i, check, prev) == NextMatch(h.slots, h.slots[i].name, 0)
  {
    FindIsScan(t, h, h.slots[i].name, true);
  }

  // ------------------------------------------------------- attach keeps the index

  /** The exact condition under which attaching keeps every dup chain in slot order:
      the new slot comes before the second dup, or after the last one. */
  predicate InsertInOrder(s: seq<Field>, i: nat)
    requires i < |s|
  {
    var head := NextMatch(s, s[i].name, 0);
    || head == NONE
    || (var second := NextMatch(s, s[i].name, head + 1);
        second == NONE || i < second || LastMatch(s, s[i].name) < i)
  }

  // Only the fields named n differ between the two tables.
  ghost predicate SameOutside(s: seq<Field>, s': seq<Field>, n: Name) {
    && |s'| == |s|
    && forall j :: 0 <= j < |s| ==> s'[j].name == s[j].name && (s[j].name != n ==> s'[j] == s[j])
  }

  lemma OthersUntouched(s: seq<Field>, s': seq<Field>, n: Name, m: Name, from: nat)
    requires SameOutside(s, s', n) && m != n
    ensures NextMatch(s', m, from) == NextMatch(s, m, from)
  {
    NextUnique(s', m, from, NextMatch(s, m, from));
  }

  // The chain facts of one name.
  ghost predicate NameOk(s: seq<Field>, n: Name) {
    forall j :: 0 <= j < |s| && Matches(s[j], n) ==>
      && s[j].next == NextMatch(s, n, j + 1)
      && (s[j].dupHead <==> NextMatch(s, n, 0) == j)
  }

  // The index facts of one name.
  ghost predicate IndexOk(t: TokenTable, h: Hdr, n: Name)
    requires t.Consistent()
  {
    n.Token? ==>
      && (t.bit(n.wks) >= 0 ==> (t.bit(n.wks) in h.presence <==> NextMatch(h.slots, n, 0) != NONE))
      && (t.slotId(n.wks) >= 0 && NextMatch(h.slots, n, 0) != NONE ==>
            GetSlotNum(h.accel, t.slotId(n.wks)) == AccelFor(NextMatch(h.slots, n, 0)))
  }

  // Nothing in the index moved except the entries of n.
  ghost predicate IndexSameOutside(t: TokenTable, h: Hdr, h': Hdr, n: Name)
    requires t.Consistent()
  {
    && (forall b :: b in h'.presence && (n.Token? ==> b !in t.Mask(n.wks)) ==> b in h.presence)
    && (forall b :: b in h.presence && (n.Token? ==> b !in t.Mask(n.wks)) ==> b in h'.presence)
    && (forall id: nat :: id < 32 && (n.Token? ==> id != t.slotId(n.wks)) ==>
          GetSlotNum(h'.accel, id) == GetSlotNum(h.accel, id))
  }

  // A bit is in the live mask exactly when some live field owns it.
  ghost predicate Owns(t: TokenTable, f: Field, b: int) {
    f.readiness.Live? && f.name.Token? && t.bit(f.name.wks) >= 0 && t.bit(f.name.wks) == b
  }

  lemma InLiveMask(t: TokenTable, s: seq<Field>, b: int)
    ensures b in LiveMask(t, s) <==> exists j :: 0 <= j < |s| && Owns(t, s[j], b)
  {
  }

  // The bit of the name that changed.
  lemma OwnBit(t: TokenTable, s: seq<Field>, n: Name, b: int)
    requires t.Consistent() && n.Token? && b in t.Mask(n.wks)
    ensures b in LiveMask(t, s) <==> NextMatch(s, n, 0) != NONE
  {
    hide LiveMask;
    InLiveMask(t, s, b);
    var first := NextMatch(s, n, 0);
    if first != NONE {
      assert Owns(t, s[first], b);
    }
    forall j | 0 <= j < |s| && Owns(t, s[j], b)
      ensures Matches(s[j], n)
    {
    }
  }

  // Any other bit.
  lemma OtherBit(t: TokenTable, s: seq<Field>, s': seq<Field>, n: Name, b: int)
    requires t.Consistent() && SameOutside(s, s', n) && (n.Token? ==> b !in t.Mask(n.wks))
    ensures b in LiveMask(t, s') <==> b in LiveMask(t, s)
  {
    hide LiveMask;
    InLiveMask(t, s, b);
    InLiveMask(t, s', b);
    forall j | 0 <= j < |s|
      ensures Owns(t, s'[j], b) <==> Owns(t, s[j], b)
    {
    }
  }

  lemma PresenceFromNames(t: TokenTable, h: Hdr, h': Hdr, n: Name)
    requires Inv(t, h) && SameOutside(h.slots, h'.slots, n)
    requires IndexSameOutside(t, h, h', n) && IndexOk(t, h', n)
    ensures h'.presence == LiveMask(t, h'.slots)
  {
    hide LiveMask, Chained, HeadsFlagged, AccelExact, LooseEnds, SameOutside;
    forall b
      ensures b in h'.presence <==> b in LiveMask(t, h'.slots)
    {
      if n.Token? && b in t.Mask(n.wks) {
        OwnBit(t, h'.slots, n, b);
      } else {
        OtherBit(t, h.slots, h'.slots, n, b);
      }
    }
  }

  /** To re-establish the invariant it is enough to look at the one name that changed. */
  lemma OneNameChanged(t: TokenTable, h: Hdr, h': Hdr, n: Name)
    requires Inv(t, h) && SameOutside(h.slots, h'.slots, n)
    requires IndexSameOutside(t, h, h', n)
    requires NameOk(h'.slots, n) && IndexOk(t, h', n) && LooseEnds(h'.slots)
    ensures Inv(t, h')
  {
    var s, s' := h.slots, h'.slots;
    forall j | 0 <= j < |s'| && s'[j].readiness.Live?
      ensures s'[j].next == NextMatch(s', s'[j].name, j + 1)
      ensures s'[j].dupHead <==> NextMatch(s', s'[j].name, 0) == j
    {
      if s'[j].name != n {
        OthersUntouched(s, s', n, s'[j].name, j + 1);
        OthersUntouched(s, s', n, s'[j].name, 0);
      }
    }
    PresenceFromNames(t, h, h', n);
    forall w: nat | 0 <= t.slotId(w) < 32 && NextMatch(s', Token(w), 0) != NONE
      ensures GetSlotNum(h'.accel, t.slotId(w)) == AccelFor(NextMatch(s', Token(w), 0))
    {
      if Token(w) != n {
        OthersUntouched(s, s', n, Token(w), 0);
      }
    }
  }

  lemma SetIndexEffect(t: TokenTable, h: Hdr, g: Hdr, n: Name, slot: nat)
    requires t.Consistent() && g.presence == h.presence && g.accel == h.accel
    ensures IndexSameOutside(t, h, SetIndex(t, g, n, slot), n)
    ensures NextMatch(g.slots, n, 0) == slot ==> IndexOk(t, SetIndex(t, g, n, slot), n)
  {
    if n.Token? && t.slotId(n.wks) >= 0 {
      forall id: nat | id < 32
        ensures GetSlotNum(SetIndex(t, g, n, slot).accel, id) ==
                if id == t.slotId(n.wks) then AccelFor(slot) else GetSlotNum(h.accel, id)
      {
        SetThenGet(h.accel, t.slotId(n.wks), AccelFor(slot), id);
      }
    }
  }

  lemma UnsetIndexEffect(t: TokenTable, h: Hdr, g: Hdr, n: Name)
    requires t.Consistent() && g.presence == h.presence && g.accel == h.accel
    ensures IndexSameOutside(t, h, UnsetIndex(t, g, n), n)
    ensures NextMatch(g.slots, n, 0) == NONE ==> IndexOk(t, UnsetIndex(t, g, n), n)
  {
    if n.Token? && t.slotId(n.wks) >= 0 {
      forall id: nat | id < 32
        ensures GetSlotNum(UnsetIndex(t, g, n).accel, id) ==
                if id == t.slotId(n.wks) then SLOTNUM_UNKNOWN else GetSlotNum(h.accel, id)
      {
        SetThenGet(h.accel, t.slotId(n.wks), SLOTNUM_UNKNOWN, id);
      }
    }
  }

  // The index entries of a name that keeps its first field stay right.
  lemma IndexUnmoved(t: TokenTable, h: Hdr, s': seq<Field>, n: Name)
    requires Inv(t, h) && NextMatch(s', n, 0) == NextMatch(h.slots, n, 0)
    ensures IndexOk(t, h.(slots := s'), n)
  {
    if n.Token? && t.bit(n.wks) >= 0 {
      var first := NextMatch(h.slots, n, 0);
      if t.bit(n.wks) in h.presence {
        assert first != NONE;
      }
    }
  }

  // The new table when i joins the chain of its name between p and q.
  lemma SplicedIn(s: seq<Field>, s': seq<Field>, i: nat, p: int, q: int)
    requires Chained(s) && HeadsFlagged(s) && i < |s| && !s[i].readiness.Live?
    requires |s'| == |s| && NONE <= p < i && (q == NONE || i < q < |s|)
    requires p != NONE ==> Matches(s[p], s[i].name) && s[p].next == q
    requires p == NONE ==> q == NextMatch(s, s[i].name, 0)
    requires q != NONE ==> Matches(s[q], s[i].name)
    requires s'[i] == s[i].(readiness := Live, dupHead := p == NONE, next := q)
    requires p != NONE ==> s'[p] == s[p].(next := i)
    requires q != NONE ==> s'[q] == s[q].(dupHead := false)
    requires forall j :: 0 <= j < |s| && j != i && j != p && j != q ==> s'[j] == s[j]
    ensures SameOutside(s, s', s[i].name) && NameOk(s', s[i].name)
    ensures NextMatch(s', s[i].name, 0) == if p == NONE then i else NextMatch(s, s[i].name, 0)
  {
    var n := s[i].name;
    var first := NextMatch(s, n, 0);
    NextUnique(s', n, 0, if p == NONE then i else first);
    forall j | 0 <= j < |s'| && Matches(s'[j], n)
      ensures s'[j].next == NextMatch(s', n, j + 1)
    {
      NextUnique(s', n, j + 1, s'[j].next);
    }
  }

  lemma AttachInFront(t: TokenTable, h: Hdr, i: nat, head: int)
    requires Inv(t, h) && i < |h.slots| && h.slots[i].readiness.Detached?
    requires head == NextMatch(h.slots, h.slots[i].name, 0) && (head == NONE || head > i)
    ensures Inv(t, AttachAt(t, h, i, head))
  {
    var h' := AttachAt(t, h, i, head);
    SplicedIn(h.slots, h'.slots, i, NONE, head);
    SetIndexEffect(t, h, h.(slots := h'.slots), h.slots[i].name, i);
    OneNameChanged(t, h, h', h.slots[i].name);
  }

  lemma AttachBehind(t: TokenTable, h: Hdr, i: nat, head: int)
    requires Inv(t, h) && i < |h.slots| && h.slots[i].readiness.Detached?
    requires head == NextMatch(h.slots, h.slots[i].name, 0) && NONE < head < i
    requires InsertInOrder(h.slots, i)
    ensures Inv(t, AttachAt(t, h, i, head))
  {
    var h', p := AttachAt(t, h, i, head), WalkEnd(h.slots, head, i);
    SplicedIn(h.slots, h'.slots, i, p, h.slots[p].next);
    IndexUnmoved(t, h, h'.slots, h.slots[i].name);
    OneNameChanged(t, h, h', h.slots[i].name);
  }

  /** Attaching a detached field keeps the whole invariant when the slot fits the chain. */
  lemma AttachKeepsInv(t: TokenTable, h: Hdr, i: nat, check: bool, prev: int)
    requires Inv(t, h) && AttachArgs(h.slots, i, check, prev)
    requires h.slots[i].readiness.Detached? ==> InsertInOrder(h.slots, i)
    ensures Inv(t, Attach(t, h, i, check, prev))
  {
    if h.slots[i].readiness.Detached? {
      HeadIsFirst(t, h, i, check, prev);
      var head := NextMatch(h.slots, h.slots[i].name, 0);
      if head == NONE || head > i {
        AttachInFront(t, h, i, head);
      } else {
        AttachBehind(t, h, i, head);
      }
    }
  }

  /** Outside that condition attaching always breaks a chain: the condition is exact. */
  lemma AttachOutOfOrderBreaks(t: TokenTable, h: Hdr, i: nat, check: bool, prev: int)
    requires Inv(t, h) && AttachArgs(h.slots, i, check, prev)
    requires h.slots[i].readiness.Detached? && !InsertInOrder(h.slots, i)
    ensures !Chained(Attach(t, h, i, check, prev).slots)
  {
    var s, h' := h.slots, Attach(t, h, i, check, prev);
    HeadIsFirst(t, h, i, check, prev);
    var head := NextMatch(s, s[i].name, 0);
    var p := WalkEnd(s, head, i);
    assert p == LastMatch(s, s[i].name) && h'.slots[p].next == i < p;
  }

  /** A field that was created after every other field always fits. */
  lemma NewestFits(s: seq<Field>, i: nat)
    requires i < |s| && s[i].readiness.Detached? && i == |s| - 1
    ensures InsertInOrder(s, i)
  {
  }

  // ------------------------------------------------------- detach keeps the index

  /** The new table when i leaves the chain of its name between p and q. */
  lemma SplicedOut(s: seq<Field>, s': seq<Field>, i: nat, p: int, q: int)
    requires Chained(s) && HeadsFlagged(s) && i < |s| && s[i].readiness.Live? && q == s[i].next
    requires |s'| == |s| && NONE <= p < i
    requires p != NONE ==> Matches(s[p], s[i].name) && s[p].next == i
    requires p == NONE ==> NextMatch(s, s[i].name, 0) == i
    requires s'[i] == s[i].(readiness := Detached, next := NONE)
    requires p != NONE ==> s'[p] == s[p].(next := q)
    requires q != NONE ==> s'[q] == s[q].(dupHead := p == NONE)
    requires forall j :: 0 <= j < |s| && j != i && j != p && j != q ==> s'[j] == s[j]
    ensures SameOutside(s, s', s[i].name) && NameOk(s', s[i].name)
    ensures NextMatch(s', s[i].name, 0) == if p == NONE then q else NextMatch(s, s[i].name, 0)
  {
    var n := s[i].name;
    var first := NextMatch(s, n, 0);
    NextUnique(s', n, 0, if p == NONE then q else first);
    forall j | 0 <= j < |s'| && Matches(s'[j], n)
      ensures s'[j].next == NextMatch(s', n, j + 1)
    {
      NextUnique(s', n, j + 1, s'[j].next);
    }
  }

  lemma DetachKeepsInv(t: TokenTable, h: Hdr, i: nat)
    requires Inv(t, h) && i < |h.slots| && h.slots[i].readiness.Live?
    ensures Inv(t, Detach(t, h, i))
  {
    var s, h' := h.slots, Detach(t, h, i);
    var n, q := s[i].name, s[i].next;
    if s[i].dupHead {
      SplicedOut(s, h'.slots, i, NONE, q);
      if q == NONE {
        UnsetIndexEffect(t, h, h.(slots := h'.slots), n);
      } else {
        SetIndexEffect(t, h, h.(slots := h'.slots), n, q);
      }
    } else {
      var p := Predecessor(s, NextMatch(s, n, 0), i);
      SplicedOut(s, h'.slots, i, p, q);
      IndexUnmoved(t, h, h'.slots, n);
    }
    OneNameChanged(t, h, h', n);
  }
}
