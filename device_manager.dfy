/**
 * device_manager.py: one reconciliation tick of `DeviceManager.run`. The
 * `assigned` dictionary (slot -> serial) is kept as a sequence of bindings
 * in insertion order, the order in which Python iterates a dict. The adb
 * listing and `dumpsys battery` come from the adb oracle, the port forward
 * from a forward oracle, and the clock is an integer number of milliseconds.
 */
module DeviceManager {
  import opened Wrappers
  import opened PyText
  import opened Utils

  /** `LOCAL_PORTS`, indexed by slot, and `DEVICE_REMOTE_PORT`. */
  const LocalPorts: seq<nat> := [4747, 4748]
  const DeviceRemotePort: nat := 4747

  /** `BATTERY_POLL_INTERVAL` (5.0 seconds) on a millisecond clock. */
  const BatteryPollIntervalMs: int := 5000

  /** A camera slot: the `cam_index` keys come from `[0, 1]`. */
  type Slot = k: nat | k < 2

  /** One item `cam_index -> serial` of `assigned`. */
  datatype Bound = Bound(slot: Slot, serial: string)

  /** The events `run` posts to the window. */
  datatype DeviceEvent =
    | DeviceRemoved(slot: Slot, serial: string)
    | DeviceAdded(slot: Slot, serial: string)
    | BatteryUpdate(slot: Slot, serial: string, info: Option<Battery>)

  /** `adb_forward_for_device(serial, local_port, DEVICE_REMOTE_PORT)`: whether the forward succeeded. */
  type Forward = (string, nat) -> bool

  // ---------------------------------------------------------------- the state and its invariant

  predicate Apart(x: Bound, y: Bound) {
    x.slot != y.slot && x.serial != y.serial
  }

  /** No slot is bound twice and no serial sits in two slots. */
  predicate Valid(a: seq<Bound>) {
    forall i, j :: 0 <= i < j < |a| ==> Apart(a[i], a[j])
  }

  function KeysOf(a: seq<Bound>): seq<Slot> {
    seq(|a|, i requires 0 <= i < |a| => a[i].slot)
  }

  /** `self.assigned.values()`. */
  function SerialsOf(a: seq<Bound>): seq<string> {
    seq(|a|, i requires 0 <= i < |a| => a[i].serial)
  }

  lemma ValidSnoc(p: seq<Bound>, x: Bound)
    ensures Valid(p + [x]) <==> Valid(p) && forall y :: y in p ==> Apart(y, x)
  {
    var q := p + [x];
    assert forall i :: 0 <= i < |p| ==> q[i] == p[i];
    if Valid(p) && forall y :: y in p ==> Apart(y, x) {
      forall i, j | 0 <= i < j < |q| ensures Apart(q[i], q[j]) {
        if j == |p| {
          assert q[i] in p;
        }
      }
    }
    if Valid(q) {
      forall y | y in p ensures Apart(y, x) {
        var i :| 0 <= i < |p| && p[i] == y;
        assert q[i] == y && q[|p|] == x;
      }
    }
  }

  /** With two slots, a valid `assigned` never holds a third device. */
  lemma AtMostTwo(a: seq<Bound>)
    requires Valid(a)
    ensures |a| <= 2
  {
    if |a| > 2 {
      var x, y, z := a[0].slot, a[1].slot, a[2].slot;
      assert false;
    }
  }

  // ---------------------------------------------------------------- serials = [s for s, st in devices if st == "device"]

  function Present(devices: seq<DeviceEntry>): (r: seq<string>)
    ensures |r| <= |devices|
  {
    if devices == [] then []
    else
      var e := devices[|devices| - 1];
      Present(devices[..|devices| - 1]) + (if e.status == Device then [e.serial] else [])
  }

  /** A serial is a candidate exactly when some entry lists it with state "device". */
  lemma {:induction false} PresentExactly(devices: seq<DeviceEntry>, s: string)
    ensures s in Present(devices) <==> DeviceEntry(s, Device) in devices
  {
    if devices != [] {
      var pre := devices[..|devices| - 1];
      PresentExactly(pre, s);
      assert devices == pre + [devices[|devices| - 1]];
    }
  }

  // ---------------------------------------------------------------- removal

  /** The bindings whose serial is still listed, in dict order. */
  function Kept(a: seq<Bound>, serials: seq<string>): (r: seq<Bound>)
    ensures |r| <= |a|
  {
    if a == [] then []
    else
      var b := a[|a| - 1];
      Kept(a[..|a| - 1], serials) + (if b.serial in serials then [b] else [])
  }

  /** The bindings whose serial vanished, in dict order: the `removed` list. */
  function Removed(a: seq<Bound>, serials: seq<string>): (r: seq<Bound>)
    ensures |r| <= |a|
  {
    if a == [] then []
    else
      var b := a[|a| - 1];
      Removed(a[..|a| - 1], serials) + (if b.serial in serials then [] else [b])
  }

  lemma KeptStep(a: seq<Bound>, i: nat, serials: seq<string>)
    requires i < |a|
    ensures Kept(a[..i + 1], serials) == Kept(a[..i], serials) + (if a[i].serial in serials then [a[i]] else [])
    ensures Removed(a[..i + 1], serials) == Removed(a[..i], serials) + (if a[i].serial in serials then [] else [a[i]])
  {
    assert a[..i + 1][..i] == a[..i];
  }

  /** A binding survives exactly when its serial is listed, and is removed exactly when it is not. */
  lemma {:induction false} KeptRemovedMembers(a: seq<Bound>, serials: seq<string>, b: Bound)
    ensures b in Kept(a, serials) <==> b in a && b.serial in serials
    ensures b in Removed(a, serials) <==> b in a && b.serial !in serials
  {
    if a != [] {
      var pre := a[..|a| - 1];
      KeptRemovedMembers(pre, serials, b);
      assert a == pre + [a[|a| - 1]];
    }
  }

  lemma {:induction false} KeptValid(a: seq<Bound>, serials: seq<string>)
    requires Valid(a)
    ensures Valid(Kept(a, serials))
  {
    if a != [] {
      var pre, x := a[..|a| - 1], a[|a| - 1];
      assert a == pre + [x];
      ValidSnoc(pre, x);
      KeptValid(pre, serials);
      if x.serial in serials {
        ValidSnoc(Kept(pre, serials), x);
        forall y | y in Kept(pre, serials) ensures Apart(y, x) {
          KeptRemovedMembers(pre, serials, y);
        }
      }
    }
  }

  /** When every serial is still listed nothing is removed. */
  lemma AllListedKept(a: seq<Bound>, serials: seq<string>)
    requires forall b :: b in a ==> b.serial in serials
    ensures Kept(a, serials) == a && Removed(a, serials) == []
  {
    forall i | 0 <= i < |a| ensures a[i].serial in serials {
      assert a[i] in a;
    }
    AllListedKeptAt(a, serials);
  }

  lemma {:induction false} AllListedKeptAt(a: seq<Bound>, serials: seq<string>)
    requires forall i :: 0 <= i < |a| ==> a[i].serial in serials
    ensures Kept(a, serials) == a && Removed(a, serials) == []
  {
    if a != [] {
      var pre := a[..|a| - 1];
      AllListedKeptAt(pre, serials);
      assert pre + [a[|a| - 1]] == a;
    }
  }

  /** `del self.assigned[k]`. */
  function DeleteKey(a: seq<Bound>, k: Slot): seq<Bound> {
    if a == [] then [] else (if a[0].slot == k then [] else [a[0]]) + DeleteKey(a[1..], k)
  }

  lemma {:induction false} DeleteKeyAbsent(a: seq<Bound>, k: Slot)
    requires forall i :: 0 <= i < |a| ==> a[i].slot != k
    ensures DeleteKey(a, k) == a
  {
    if a != [] {
      DeleteKeyAbsent(a[1..], k);
    }
  }

  lemma {:induction false} DeleteKeyConcat(p: seq<Bound>, q: seq<Bound>, k: Slot)
    ensures DeleteKey(p + q, k) == DeleteKey(p, k) + DeleteKey(q, k)
  {
    if p != [] {
      assert (p + q)[1..] == p[1..] + q;
      DeleteKeyConcat(p[1..], q, k);
    } else {
      assert p + q == q;
    }
  }

  /** Deleting the key of the binding at position `i` leaves the others in order. */
  lemma DeleteOne(p: seq<Bound>, x: Bound, q: seq<Bound>)
    requires forall i :: 0 <= i < |p| ==> p[i].slot != x.slot
    requires forall i :: 0 <= i < |q| ==> q[i].slot != x.slot
    ensures DeleteKey(p + [x] + q, x.slot) == p + q
  {
    var k := x.slot;
    var px := p + [x];
    DeleteKeyConcat(px, q, k);
    DeleteKeyConcat(p, [x], k);
    DeleteKeyAbsent(p, k);
    DeleteKeyAbsent(q, k);
    assert [x][1..] == [];
    assert DeleteKey([x], k) == [];
    assert DeleteKey(px, k) == p + [];
    assert p + [] == p;
  }

  /** One step of the removal loop over the snapshot `list(self.assigned.items())`. */
  lemma RemovalStep(snap: seq<Bound>, i: nat, serials: seq<string>)
    requires Valid(snap) && i < |snap|
    ensures snap[i].serial !in serials ==>
      DeleteKey(Kept(snap[..i], serials) + snap[i..], snap[i].slot) == Kept(snap[..i + 1], serials) + snap[i + 1..]
    ensures snap[i].serial in serials ==>
      Kept(snap[..i], serials) + snap[i..] == Kept(snap[..i + 1], serials) + snap[i + 1..]
  {
    KeptAvoidsSlot(snap, i, serials);
    LaterAvoidSlot(snap, i, snap[i + 1..]);
    RemovalStepApart(snap, i, serials, snap[i + 1..]);
  }

  /** `RemovalStep` once the slot at `i` is known to be unique among the rest. */
  lemma RemovalStepApart(snap: seq<Bound>, i: nat, serials: seq<string>, q: seq<Bound>)
    requires i < |snap| && q == snap[i + 1..]
    requires forall k :: 0 <= k < |Kept(snap[..i], serials)| ==> Kept(snap[..i], serials)[k].slot != snap[i].slot
    requires forall j :: 0 <= j < |q| ==> q[j].slot != snap[i].slot
    ensures snap[i].serial !in serials ==>
      DeleteKey(Kept(snap[..i], serials) + snap[i..], snap[i].slot) == Kept(snap[..i + 1], serials) + snap[i + 1..]
    ensures snap[i].serial in serials ==>
      Kept(snap[..i], serials) + snap[i..] == Kept(snap[..i + 1], serials) + snap[i + 1..]
  {
    var x := snap[i];
    var p := Kept(snap[..i], serials);
    assert snap[i..] == [x] + snap[i + 1..];
    KeptStep(snap, i, serials);
    if x.serial !in serials {
      DeleteOne(p, x, q);
      assert p + [x] + q == p + snap[i..];
    }
  }

  lemma KeptAvoidsSlot(snap: seq<Bound>, i: nat, serials: seq<string>)
    requires Valid(snap) && i < |snap|
    ensures forall k :: 0 <= k < |Kept(snap[..i], serials)| ==> Kept(snap[..i], serials)[k].slot != snap[i].slot
  {
    var p := Kept(snap[..i], serials);
    forall k | 0 <= k < |p| ensures p[k].slot != snap[i].slot {
      var y := p[k];
      KeptRemovedMembers(snap[..i], serials, y);
      var j :| 0 <= j < i && snap[..i][j] == y;
      assert Apart(snap[j], snap[i]);
    }
  }

  lemma LaterAvoidSlot(snap: seq<Bound>, i: nat, q: seq<Bound>)
    requires Valid(snap) && i < |snap| && q == snap[i + 1..]
    ensures forall j :: 0 <= j < |q| ==> q[j].slot != snap[i].slot
  {
    forall j | 0 <= j < |q| ensures q[j].slot != snap[i].slot {
      assert q[j] == snap[i + 1 + j];
      assert Apart(snap[i], snap[i + 1 + j]);
    }
  }

  /** Lines 42-49 over the snapshot `list(self.assigned.items())`: unbind every slot whose serial is no longer listed. */
  method RemoveVanished(bindings: seq<Bound>, serials: seq<string>) returns (cur: seq<Bound>, removed: seq<Bound>)
    requires Valid(bindings)
    ensures cur == Kept(bindings, serials) && removed == Removed(bindings, serials)
  {
    cur := bindings;
    removed := [];
    var i := 0;
    while i < |bindings|
      invariant 0 <= i <= |bindings|
      invariant cur == Kept(bindings[..i], serials) + bindings[i..]
      invariant removed == Removed(bindings[..i], serials)
    {
      var b := bindings[i];
      RemovalStep(bindings, i, serials);
      KeptStep(bindings, i, serials);
      if b.serial !in serials {
        removed := removed + [b];
        cur := DeleteKey(cur, b.slot);
      }
      i := i + 1;
    }
    assert bindings[..i] == bindings;
    assert bindings[i..] == [];
  }

  // ---------------------------------------------------------------- idle slots

  /** `[0, 1]` less the slots flagged as taken, ascending. */
  function FreeOfFlags(taken0: bool, taken1: bool): seq<Slot> {
    (if taken0 then [] else [0]) + (if taken1 then [] else [1])
  }

  /** `[0, 1]` less the keys, ascending. */
  function FreeOf(keys: seq<Slot>): (r: seq<Slot>)
    ensures forall k: Slot :: k in r <==> k !in keys
    ensures forall i, j :: 0 <= i < j < |r| ==> r[i] < r[j]
  {
    FreeOfFlags(0 in keys, 1 in keys)
  }

  /** `free_cam_indices` after the removals. */
  function FreeSlots(a: seq<Bound>): seq<Slot> {
    FreeOf(KeysOf(a))
  }

  /** `list.remove(x)`: drops the first occurrence. */
  function RemoveFirst(xs: seq<Slot>, x: Slot): (r: seq<Slot>)
    requires x in xs
    ensures |r| == |xs| - 1
  {
    if xs[0] == x then xs[1..] else [xs[0]] + RemoveFirst(xs[1..], x)
  }

  /** Taking slot k off the free list is the same as flagging k as taken. */
  lemma FlagsStep(taken0: bool, taken1: bool, k: Slot)
    ensures var f := FreeOfFlags(taken0, taken1);
      var g := FreeOfFlags(taken0 || k == 0, taken1 || k == 1);
      (k in f ==> g == RemoveFirst(f, k)) && (k !in f ==> g == f)
  {
    if !taken0 && !taken1 && k == 1 {
      assert RemoveFirst([0, 1], 1) == [0] + RemoveFirst([1], 1);
    }
  }

  /** One more key over a prefix, in terms of the taken flags. */
  lemma FlagsPrefixStep(keys: seq<Slot>, i: nat)
    requires i < |keys|
    ensures var f := FreeOfFlags(0 in keys[..i], 1 in keys[..i]);
      var g := FreeOfFlags(0 in keys[..i + 1], 1 in keys[..i + 1]);
      (keys[i] in f ==> g == RemoveFirst(f, keys[i])) && (keys[i] !in f ==> g == f)
  {
    assert keys[..i + 1] == keys[..i] + [keys[i]];
    assert (0 in keys[..i + 1]) == (0 in keys[..i] || keys[i] == 0);
    assert (1 in keys[..i + 1]) == (1 in keys[..i] || keys[i] == 1);
    FlagsStep(0 in keys[..i], 1 in keys[..i], keys[i]);
  }

  /** The loop of lines 52-55 over `list(self.assigned.keys())`. */
  method FreeCamIndices(keys: seq<Slot>) returns (idle: seq<Slot>)
    ensures idle == FreeOf(keys)
  {
    idle := [0, 1];
    var i := 0;
    while i < |keys|
      invariant 0 <= i <= |keys|
      invariant idle == FreeOfFlags(0 in keys[..i], 1 in keys[..i])
    {
      var idx := keys[i];
      FlagsPrefixStep(keys, i);
      if idx in idle {
        idle := RemoveFirst(idle, idx);
      }
      i := i + 1;
    }
    assert keys[..i] == keys;
  }

  // ---------------------------------------------------------------- binding new serials

  /** The loop state of lines 58-69: `assigned`, `free_cam_indices` and `added`. */
  datatype BindState = BindState(bindings: seq<Bound>, idle: seq<Slot>, added: seq<Bound>)

  /**
   * Lines 58-69 over the serials left: a serial already bound is skipped;
   * with no idle slot the loop stops; otherwise it pops the lowest idle
   * slot, and binds it only if the forward succeeds.
   */
  function Bind(serials: seq<string>, st: BindState, forward: Forward): BindState
    decreases |serials|
  {
    if serials == [] then st
    else if serials[0] in SerialsOf(st.bindings) then Bind(serials[1..], st, forward)
    else if st.idle == [] then st
    else Bind(serials[1..], Attempt(serials[0], st, forward), forward)
  }

  /** Pop the lowest idle slot and try to forward it for `s`. */
  function Attempt(s: string, st: BindState, forward: Forward): (r: BindState)
    requires st.idle != []
    ensures r.idle == st.idle[1..]
  {
    var slot := st.idle[0];
    if forward(s, LocalPorts[slot]) then
      BindState(st.bindings + [Bound(slot, s)], st.idle[1..], st.added + [Bound(slot, s)])
    else
      BindState(st.bindings, st.idle[1..], st.added)
  }

  /** The loop's invariant: bindings valid, idle slots ascending and unbound, `assigned` is the survivors plus `added`. */
  predicate BindInv(st: BindState, base: seq<Bound>) {
    && Valid(st.bindings)
    && (forall i, j :: 0 <= i < j < |st.idle| ==> st.idle[i] < st.idle[j])
    && (forall i, j :: 0 <= i < |st.idle| && 0 <= j < |st.bindings| ==> st.idle[i] != st.bindings[j].slot)
    && st.bindings == base + st.added
  }

  lemma AttemptKeepsInv(s: string, st: BindState, base: seq<Bound>, forward: Forward)
    requires st.idle != [] && s !in SerialsOf(st.bindings)
    requires BindInv(st, base)
    ensures BindInv(Attempt(s, st, forward), base)
  {
    var slot := st.idle[0];
    var r := Attempt(s, st, forward);
    if forward(s, LocalPorts[slot]) {
      var x := Bound(slot, s);
      ValidSnoc(st.bindings, x);
      forall y | y in st.bindings ensures Apart(y, x) {
        var j :| 0 <= j < |st.bindings| && st.bindings[j] == y;
        assert SerialsOf(st.bindings)[j] == y.serial;
      }
      assert r.bindings == base + r.added;
      forall i, j | 0 <= i < |r.idle| && 0 <= j < |r.bindings| ensures r.idle[i] != r.bindings[j].slot {
        assert r.idle[i] == st.idle[i + 1];
        if j == |st.bindings| {
          assert st.idle[0] < st.idle[i + 1];
        }
      }
    }
  }

  /** The loop keeps its invariant, and only ever appends to `added`. */
  lemma {:induction false} BindKeepsInv(serials: seq<string>, st: BindState, base: seq<Bound>, forward: Forward)
    requires BindInv(st, base)
    ensures BindInv(Bind(serials, st, forward), base)
    ensures forall b :: b in Bind(serials, st, forward).bindings ==> b in st.bindings || b.serial in serials
    decreases |serials|
  {
    if serials != [] && serials[0] !in SerialsOf(st.bindings) && st.idle != [] {
      var next := Attempt(serials[0], st, forward);
      AttemptKeepsInv(serials[0], st, base, forward);
      BindKeepsInv(serials[1..], next, base, forward);
      forall b | b in Bind(serials, st, forward).bindings ensures b in st.bindings || b.serial in serials {
        if b !in next.bindings {
          assert b.serial in serials[1..];
        }
      }
    } else if serials != [] && serials[0] in SerialsOf(st.bindings) {
      BindKeepsInv(serials[1..], st, base, forward);
    }
  }

  /** Every slot is bound or still idle. */
  predicate Covered(st: BindState) {
    forall k: Slot :: k in KeysOf(st.bindings) || k in st.idle
  }

  /**
   * When every forward succeeds, the loop ends with every listed serial
   * bound, or with no idle slot left.
   */
  lemma {:induction false} BindComplete(serials: seq<string>, st: BindState, forward: Forward)
    requires forall s, p :: forward(s, p)
    requires Covered(st)
    ensures Covered(Bind(serials, st, forward))
    ensures forall s :: s in serials ==> s in SerialsOf(Bind(serials, st, forward).bindings) || Bind(serials, st, forward).idle == []
    decreases |serials|
  {
    var r := Bind(serials, st, forward);
    if serials != [] {
      var s := serials[0];
      var next := if s in SerialsOf(st.bindings) then st else if st.idle == [] then st else Attempt(s, st, forward);
      if s in SerialsOf(st.bindings) || st.idle != [] {
        if st.idle != [] && s !in SerialsOf(st.bindings) {
          var x := Bound(st.idle[0], s);
          assert next.bindings == st.bindings + [x];
          assert KeysOf(next.bindings) == KeysOf(st.bindings) + [x.slot];
          assert SerialsOf(next.bindings) == SerialsOf(st.bindings) + [s];
          assert forall k: Slot :: k in st.idle ==> k == st.idle[0] || k in next.idle;
        }
        BindComplete(serials[1..], next, forward);
        BindGrows(serials[1..], next, forward);
        forall t | t in serials ensures t in SerialsOf(r.bindings) || r.idle == [] {
          if t != s {
            assert t in serials[1..];
          }
        }
      }
    }
  }

  /** Binding only appends. */
  lemma {:induction false} BindGrows(serials: seq<string>, st: BindState, forward: Forward)
    ensures forall t :: t in SerialsOf(st.bindings) ==> t in SerialsOf(Bind(serials, st, forward).bindings)
    decreases |serials|
  {
    if serials != [] && serials[0] !in SerialsOf(st.bindings) && st.idle != [] {
      var next := Attempt(serials[0], st, forward);
      BindGrows(serials[1..], next, forward);
      forall t | t in SerialsOf(st.bindings) ensures t in SerialsOf(next.bindings) {
        var j :| 0 <= j < |st.bindings| && SerialsOf(st.bindings)[j] == t;
        assert next.bindings == st.bindings || next.bindings == st.bindings + [Bound(st.idle[0], serials[0])];
        assert next.bindings[j] == st.bindings[j];
        assert SerialsOf(next.bindings)[j] == t;
      }
    } else if serials != [] && serials[0] in SerialsOf(st.bindings) {
      BindGrows(serials[1..], st, forward);
    }
  }

  /** With every serial bound or no slot idle, the loop changes nothing. */
  lemma {:induction false} BindNothing(serials: seq<string>, st: BindState, forward: Forward)
    requires forall s :: s in serials ==> s in SerialsOf(st.bindings) || st.idle == []
    ensures Bind(serials, st, forward) == st
    decreases |serials|
  {
    if serials != [] && serials[0] in SerialsOf(st.bindings) {
      BindNothing(serials[1..], st, forward);
    }
  }

  // ---------------------------------------------------------------- the pairing rule

  /** `xs` is `ys` with some elements left out, the rest kept in order. */
  predicate Subseq<T(==)>(xs: seq<T>, ys: seq<T>)
    decreases |ys|
  {
    xs == [] || (ys != [] && ((xs[0] == ys[0] && Subseq(xs[1..], ys[1..])) || Subseq(xs, ys[1..])))
  }

  predicate Ascending(xs: seq<Slot>) {
    forall i, j :: 0 <= i < j < |xs| ==> xs[i] < xs[j]
  }

  lemma {:induction false} SubseqMembers<T>(xs: seq<T>, ys: seq<T>)
    requires Subseq(xs, ys)
    ensures forall x :: x in xs ==> x in ys
    decreases |ys|
  {
    if xs != [] {
      if xs[0] == ys[0] && Subseq(xs[1..], ys[1..]) {
        SubseqMembers(xs[1..], ys[1..]);
        forall x | x in xs ensures x in ys {
          if x != xs[0] {
            assert x in xs[1..];
            assert x in ys[1..];
          }
        }
      } else {
        SubseqMembers(xs, ys[1..]);
        forall x | x in xs ensures x in ys {
          assert x in ys[1..];
        }
      }
    }
  }

  /** Leaving elements out of an ascending list keeps it ascending. */
  lemma {:induction false} SubseqAscending(xs: seq<Slot>, ys: seq<Slot>)
    requires Subseq(xs, ys) && Ascending(ys)
    ensures Ascending(xs)
    decreases |ys|
  {
    if xs != [] {
      assert Ascending(ys[1..]) by {
        forall i, j | 0 <= i < j < |ys[1..]| ensures ys[1..][i] < ys[1..][j] {
          assert ys[1..][i] == ys[i + 1] && ys[1..][j] == ys[j + 1];
        }
      }
      if xs[0] == ys[0] && Subseq(xs[1..], ys[1..]) {
        SubseqAscending(xs[1..], ys[1..]);
        SubseqMembers(xs[1..], ys[1..]);
        forall i, j | 0 <= i < j < |xs| ensures xs[i] < xs[j] {
          assert xs[j] == xs[1..][j - 1] && xs[j] in ys[1..];
          if i > 0 {
            assert xs[i] == xs[1..][i - 1];
          } else {
            var m :| 0 <= m < |ys[1..]| && ys[1..][m] == xs[j];
            assert ys[0] < ys[m + 1];
          }
        }
      } else {
        SubseqAscending(xs, ys[1..]);
      }
    }
  }

  /**
   * What the binding loop appends, `d`, against the idle slots and the
   * serials it started from: every pair in `d` had a successful forward;
   * its slots are taken from `idle` in order and its serials from `serials`
   * in order; and when no forward fails, the k-th pair holds `idle[k]`.
   */
  ghost predicate Paired(d: seq<Bound>, idle: seq<Slot>, serials: seq<string>, forward: Forward) {
    && (forall k :: 0 <= k < |d| ==> forward(d[k].serial, LocalPorts[d[k].slot]))
    && Subseq(KeysOf(d), idle)
    && Subseq(SerialsOf(d), serials)
    && ((forall t, p :: forward(t, p)) ==> |d| <= |idle| && forall k :: 0 <= k < |d| ==> d[k].slot == idle[k])
  }

  lemma PairedTake(x: Bound, d: seq<Bound>, idle: seq<Slot>, serials: seq<string>, forward: Forward)
    requires idle != [] && serials != [] && x == Bound(idle[0], serials[0])
    requires forward(x.serial, LocalPorts[x.slot])
    requires Paired(d, idle[1..], serials[1..], forward)
    ensures Paired([x] + d, idle, serials, forward)
  {
    var e := [x] + d;
    assert KeysOf(e) == [x.slot] + KeysOf(d) && KeysOf(e)[1..] == KeysOf(d);
    assert SerialsOf(e) == [x.serial] + SerialsOf(d) && SerialsOf(e)[1..] == SerialsOf(d);
    forall k | 0 <= k < |e| ensures forward(e[k].serial, LocalPorts[e[k].slot]) {
      if k > 0 {
        assert e[k] == d[k - 1];
      }
    }
    if forall t, p :: forward(t, p) {
      forall k | 0 <= k < |e| ensures e[k].slot == idle[k] {
        if k > 0 {
          assert e[k] == d[k - 1] && idle[1..][k - 1] == idle[k];
        }
      }
    }
  }

  lemma PairedSkipSerial(d: seq<Bound>, idle: seq<Slot>, serials: seq<string>, forward: Forward)
    requires serials != [] && Paired(d, idle, serials[1..], forward)
    ensures Paired(d, idle, serials, forward)
  {
  }

  lemma PairedSkipSlot(d: seq<Bound>, idle: seq<Slot>, serials: seq<string>, forward: Forward, t: string, p: nat)
    requires idle != [] && !forward(t, p) && Paired(d, idle[1..], serials, forward)
    ensures Paired(d, idle, serials, forward)
  {
  }

  /** The binding loop only appends to `added`. */
  lemma {:induction false} BindAppends(serials: seq<string>, st: BindState, forward: Forward)
    ensures var r := Bind(serials, st, forward);
      |st.added| <= |r.added| && r.added[..|st.added|] == st.added
    decreases |serials|
  {
    if serials != [] && serials[0] !in SerialsOf(st.bindings) && st.idle != [] {
      var next := Attempt(serials[0], st, forward);
      BindAppends(serials[1..], next, forward);
      assert next.added[..|st.added|] == st.added;
    } else if serials != [] && serials[0] in SerialsOf(st.bindings) {
      BindAppends(serials[1..], st, forward);
    }
  }

  /**
   * Lines 58-69 in general: each serial not yet bound, in adb order, takes
   * the lowest idle slot left, and keeps it only when its forward succeeds;
   * a failed forward uses the slot up.
   */
  lemma {:induction false} BindPairing(serials: seq<string>, st: BindState, forward: Forward)
    ensures var r := Bind(serials, st, forward);
      && |st.added| <= |r.added| && r.added[..|st.added|] == st.added
      && Paired(r.added[|st.added|..], st.idle, serials, forward)
    decreases |serials|
  {
    var r := Bind(serials, st, forward);
    BindAppends(serials, st, forward);
    if serials == [] || (serials[0] !in SerialsOf(st.bindings) && st.idle == []) {
      assert r.added[|st.added|..] == [];
    } else if serials[0] in SerialsOf(st.bindings) {
      BindPairing(serials[1..], st, forward);
      PairedSkipSerial(r.added[|st.added|..], st.idle, serials, forward);
    } else {
      var next := Attempt(serials[0], st, forward);
      BindPairing(serials[1..], next, forward);
      var x := Bound(st.idle[0], serials[0]);
      var d' := r.added[|next.added|..];
      if forward(serials[0], LocalPorts[st.idle[0]]) {
        assert next.added == st.added + [x];
        assert r.added[|st.added|..] == [x] + d';
        PairedTake(x, d', st.idle, serials, forward);
      } else {
        assert next.added == st.added;
        PairedSkipSerial(d', st.idle[1..], serials, forward);
        PairedSkipSlot(d', st.idle, serials, forward, serials[0], LocalPorts[st.idle[0]]);
      }
    }
  }

  /** Slots are handed out in ascending order whenever the idle list is ascending, as `FreeOf` makes it. */
  lemma BindSlotsAscend(serials: seq<string>, st: BindState, forward: Forward)
    requires Ascending(st.idle)
    ensures var r := Bind(serials, st, forward);
      |st.added| <= |r.added| && Ascending(KeysOf(r.added[|st.added|..]))
  {
    var r := Bind(serials, st, forward);
    BindPairing(serials, st, forward);
    SubseqAscending(KeysOf(r.added[|st.added|..]), st.idle);
  }

  /** The loop of lines 58-69. */
  method BindNew(serials: seq<string>, bindings: seq<Bound>, idle: seq<Slot>, forward: Forward) returns (r: BindState)
    ensures r == Bind(serials, BindState(bindings, idle, []), forward)
  {
    var a, f, added := bindings, idle, [];
    var i := 0;
    while i < |serials|
      invariant 0 <= i <= |serials|
      invariant Bind(serials[i..], BindState(a, f, added), forward) == Bind(serials, BindState(bindings, idle, []), forward)
    {
      var s := serials[i];
      assert serials[i..][0] == s && serials[i..][1..] == serials[i + 1..];
      if s in SerialsOf(a) {
        i := i + 1;
        continue;
      }
      if f == [] {
        break;
      }
      var slot := f[0];
      f := f[1..];
      var ok := forward(s, LocalPorts[slot]);
      if ok {
        a := a + [Bound(slot, s)];
        added := added + [Bound(slot, s)];
      }
      i := i + 1;
    }
    return BindState(a, f, added);
  }

  // ---------------------------------------------------------------- the whole reconciliation

  /** What one tick does to `assigned`, and its `removed` and `added` lists. */
  datatype Outcome = Outcome(bindings: seq<Bound>, removed: seq<Bound>, added: seq<Bound>)

  function Reconcile(a: seq<Bound>, devices: seq<DeviceEntry>, forward: Forward): Outcome {
    var serials := Present(devices);
    var kept := Kept(a, serials);
    var r := Bind(serials, BindState(kept, FreeSlots(kept), []), forward);
    Outcome(r.bindings, Removed(a, serials), r.added)
  }

  lemma StartInv(kept: seq<Bound>)
    requires Valid(kept)
    ensures BindInv(BindState(kept, FreeSlots(kept), []), kept)
  {
    var f := FreeSlots(kept);
    forall i, j | 0 <= i < |f| && 0 <= j < |kept| ensures f[i] != kept[j].slot {
      assert KeysOf(kept)[j] == kept[j].slot;
    }
  }

  /**
   * After a tick `assigned` is injective, holds at most two slots, binds only
   * serials listed with state "device", and is the survivors followed by the
   * new bindings in binding order.
   */
  lemma ReconcileInvariant(a: seq<Bound>, devices: seq<DeviceEntry>, forward: Forward)
    requires Valid(a)
    ensures var o := Reconcile(a, devices, forward);
      && Valid(o.bindings) && |o.bindings| <= 2
      && (forall b :: b in o.bindings ==> DeviceEntry(b.serial, Device) in devices)
      && o.bindings == Kept(a, Present(devices)) + o.added
  {
    var serials := Present(devices);
    var kept := Kept(a, serials);
    var o := Reconcile(a, devices, forward);
    KeptValid(a, serials);
    StartInv(kept);
    BindKeepsInv(serials, BindState(kept, FreeSlots(kept), []), kept, forward);
    AtMostTwo(o.bindings);
    forall b | b in o.bindings ensures DeviceEntry(b.serial, Device) in devices {
      if b in kept {
        KeptRemovedMembers(a, serials, b);
      }
      PresentExactly(devices, b.serial);
    }
  }

  /**
   * A binding is reported removed exactly when its serial is no longer listed
   * as "device"; a binding whose serial is listed survives unchanged.
   */
  lemma ReconcileRemoval(a: seq<Bound>, devices: seq<DeviceEntry>, forward: Forward, b: Bound)
    requires Valid(a) && b in a
    ensures b in Reconcile(a, devices, forward).removed <==> DeviceEntry(b.serial, Device) !in devices
    ensures DeviceEntry(b.serial, Device) in devices ==> b in Reconcile(a, devices, forward).bindings
  {
    var serials := Present(devices);
    KeptRemovedMembers(a, serials, b);
    PresentExactly(devices, b.serial);
    ReconcileInvariant(a, devices, forward);
  }

  /** An adb enumeration failure lists nothing, so every slot is released. */
  lemma EnumerationFailureUnbindsAll(a: seq<Bound>, r: AdbOutput, forward: Forward)
    requires r.code != 0
    ensures Reconcile(a, DevicesOf(r), forward) == Outcome([], a, [])
  {
    KeptNone(a);
  }

  lemma {:induction false} KeptNone(a: seq<Bound>)
    ensures Kept(a, []) == [] && Removed(a, []) == a
  {
    if a != [] {
      KeptNone(a[..|a| - 1]);
      assert a == a[..|a| - 1] + [a[|a| - 1]];
    }
  }

  /** Ticking again on the same listing removes nothing. */
  lemma RetickRemovesNothing(a: seq<Bound>, devices: seq<DeviceEntry>, forward: Forward)
    requires Valid(a)
    ensures Reconcile(Reconcile(a, devices, forward).bindings, devices, forward).removed == []
  {
    var o := Reconcile(a, devices, forward);
    ReconcileInvariant(a, devices, forward);
    forall b | b in o.bindings ensures b.serial in Present(devices) {
      PresentExactly(devices, b.serial);
    }
    AllListedKept(o.bindings, Present(devices));
  }

  /**
   * When every forward succeeds, a second tick on the same listing changes
   * nothing: no removals, no additions, the same bindings.
   */
  lemma TickIdempotent(a: seq<Bound>, devices: seq<DeviceEntry>, forward: Forward)
    requires Valid(a)
    requires forall s, p :: forward(s, p)
    ensures var o := Reconcile(a, devices, forward);
      Reconcile(o.bindings, devices, forward) == Outcome(o.bindings, [], [])
  {
    var serials := Present(devices);
    var kept := Kept(a, serials);
    var st := BindState(kept, FreeSlots(kept), []);
    var o := Reconcile(a, devices, forward);
    RetickRemovesNothing(a, devices, forward);
    forall b | b in o.bindings ensures b.serial in serials {
      ReconcileInvariant(a, devices, forward);
      PresentExactly(devices, b.serial);
    }
    AllListedKept(o.bindings, serials);
    assert Covered(st);
    BindComplete(serials, st, forward);
    var r := Bind(serials, st, forward);
    var st2 := BindState(o.bindings, FreeSlots(o.bindings), []);
    if r.idle == [] {
      assert forall k: Slot :: k in KeysOf(o.bindings);
      assert FreeSlots(o.bindings) == [];
    }
    BindNothing(serials, st2, forward);
  }

  lemma BindTwoOfThree(s1: string, s2: string, s3: string, forward: Forward)
    requires s1 != s2
    requires forall s, p :: forward(s, p)
    ensures Bind([s1, s2, s3], BindState([], [0, 1], []), forward)
      == BindState([Bound(0, s1), Bound(1, s2)], [], [Bound(0, s1), Bound(1, s2)])
  {
    var st := BindState([], [0, 1], []);
    var st1 := Attempt(s1, st, forward);
    assert st1 == BindState([Bound(0, s1)], [1], [Bound(0, s1)]);
    var st2 := Attempt(s2, st1, forward);
    assert st2 == BindState([Bound(0, s1), Bound(1, s2)], [], [Bound(0, s1), Bound(1, s2)]);
    assert SerialsOf(st.bindings) == [] && SerialsOf(st1.bindings) == [s1];
    assert [s1, s2, s3][1..] == [s2, s3] && [s2, s3][1..] == [s3];
    assert Bind([s3], st2, forward) == st2;
    assert Bind([s2, s3], st1, forward) == Bind([s3], st2, forward);
  }

  /** Lowest idle slot first, in adb order, and a third device never gets a slot. */
  lemma ThirdDeviceWaits(s1: string, s2: string, s3: string, forward: Forward)
    requires s1 != s2 && s1 != s3 && s2 != s3
    requires forall s, p :: forward(s, p)
    ensures Reconcile([], [DeviceEntry(s1, Device), DeviceEntry(s2, Device), DeviceEntry(s3, Device)], forward)
      == Outcome([Bound(0, s1), Bound(1, s2)], [], [Bound(0, s1), Bound(1, s2)])
  {
    var d1, d2 := [DeviceEntry(s1, Device)], [DeviceEntry(s1, Device), DeviceEntry(s2, Device)];
    var devices := d2 + [DeviceEntry(s3, Device)];
    assert devices == [DeviceEntry(s1, Device), DeviceEntry(s2, Device), DeviceEntry(s3, Device)];
    assert d2[..1] == d1 && devices[..2] == d2;
    assert Present(d1) == [s1];
    assert Present(d2) == [s1, s2];
    assert Present(devices) == [s1, s2, s3];
    assert FreeSlots([]) == [0, 1];
    BindTwoOfThree(s1, s2, s3, forward);
  }

  /** A failed forward still uses up the slot it popped: the next serial gets the next slot. */
  lemma FailedForwardUsesSlot(s1: string, s2: string, forward: Forward)
    requires s1 != s2
    requires !forward(s1, 4747) && forward(s2, 4748)
    ensures Reconcile([], [DeviceEntry(s1, Device), DeviceEntry(s2, Device)], forward)
      == Outcome([Bound(1, s2)], [], [Bound(1, s2)])
  {
    var devices := [DeviceEntry(s1, Device), DeviceEntry(s2, Device)];
    assert devices[..1] == [DeviceEntry(s1, Device)];
    assert Present(devices) == [s1, s2];
    KeptNone([]);
    var st := BindState([], [0, 1], []);
    assert FreeSlots([]) == [0, 1];
    var st1 := Attempt(s1, st, forward);
    assert st1 == BindState([], [1], []);
    var st2 := Attempt(s2, st1, forward);
    assert st2 == BindState([Bound(1, s2)], [], [Bound(1, s2)]);
    assert SerialsOf(st.bindings) == [] && SerialsOf(st1.bindings) == [];
    assert [s1, s2][1..] == [s2];
    assert Bind([s2], st1, forward) == Bind([], st2, forward);
    assert Bind([s1, s2], st, forward) == Bind([s2], st1, forward);
  }

  /** A slot freed by a removal can be bound again in the same tick. */
  lemma FreedSlotRebound(gone: string, arrived: string, forward: Forward)
    requires gone != arrived
    requires forall s, p :: forward(s, p)
    ensures Reconcile([Bound(0, gone)], [DeviceEntry(arrived, Device)], forward)
      == Outcome([Bound(0, arrived)], [Bound(0, gone)], [Bound(0, arrived)])
  {
    var devices := [DeviceEntry(arrived, Device)];
    assert Present(devices) == [arrived];
    KeptNone([]);
    var a := [Bound(0, gone)];
    assert a[..0] == [];
    assert Kept(a, [arrived]) == [];
    assert Removed(a, [arrived]) == a;
    assert FreeSlots([]) == [0, 1];
    var st := BindState([], [0, 1], []);
    var st1 := Attempt(arrived, st, forward);
    assert st1 == BindState([Bound(0, arrived)], [1], [Bound(0, arrived)]);
    assert SerialsOf(st.bindings) == [];
    assert Bind([arrived], st, forward) == Bind([], st1, forward);
  }

  // ---------------------------------------------------------------- the battery poll

  /** The command for `dumpsys battery` on one device, and what `get_battery_via_adb` returns. */
  function BatteryFor(serial: string, adb: Adb): Option<Battery> {
    BatteryOf(RunAdbList(DumpsysCommand(serial), adb))
  }

  /**
   * Calling the one-parameter `get_battery_via_adb` with `extra` further
   * positional arguments: any extra argument raises TypeError before the body runs.
   */
  function CallGetBattery(serial: string, extra: nat, adb: Adb): (r: Result<Option<Battery>>)
    ensures r.Ok? <==> extra == 0
  {
    if extra == 0 then Ok(BatteryFor(serial, adb))
    else Raised("TypeError: get_battery_via_adb() takes 1 positional argument but " + IntToDecimal(extra + 1) + " were given")
  }

  /** The `try` of lines 76-82 for one binding: the update when the call returns, nothing when it raises. */
  function UpdateOf(b: Bound, extra: nat, adb: Adb): (r: seq<DeviceEvent>)
    ensures extra == 0 ==> r == [BatteryUpdate(b.slot, b.serial, BatteryFor(b.serial, adb))]
    ensures extra != 0 ==> r == []
  {
    match CallGetBattery(b.serial, extra, adb)
    case Ok(info) => [BatteryUpdate(b.slot, b.serial, info)]
    case Raised(_) => []
  }

  /** Lines 75-82: call once per binding, in dict order. */
  function PollWith(a: seq<Bound>, extra: nat, adb: Adb): (r: seq<DeviceEvent>)
    ensures |r| <= |a|
  {
    if a == [] then [] else PollWith(a[..|a| - 1], extra, adb) + UpdateOf(a[|a| - 1], extra, adb)
  }

  /** The poll as written: `get_battery_via_adb(serial, self.window)`. */
  function PollAsWritten(a: seq<Bound>, adb: Adb): seq<DeviceEvent> {
    PollWith(a, 1, adb)
  }

  /** The poll as intended: `get_battery_via_adb(serial)`. */
  function Poll(a: seq<Bound>, adb: Adb): seq<DeviceEvent> {
    PollWith(a, 0, adb)
  }

  /** As written, the poll never produces an update, whatever is bound. */
  lemma {:induction false} PollAsWrittenIsEmpty(a: seq<Bound>, adb: Adb)
    ensures PollAsWritten(a, adb) == []
  {
    if a != [] {
      PollAsWrittenIsEmpty(a[..|a| - 1], adb);
    }
  }

  /** The `BATTERY_UPDATE` the intended call produces for one binding. */
  function Report(b: Bound, adb: Adb): DeviceEvent {
    BatteryUpdate(b.slot, b.serial, BatteryFor(b.serial, adb))
  }

  lemma PollSnoc(a: seq<Bound>, adb: Adb)
    requires a != []
    ensures Poll(a, adb) == Poll(a[..|a| - 1], adb) + [Report(a[|a| - 1], adb)]
  {
  }

  /** The intended poll reports every binding, in dict order, with what `dumpsys battery` gives. */
  lemma {:induction false} PollReportsEverySlot(a: seq<Bound>, adb: Adb)
    ensures |Poll(a, adb)| == |a|
    ensures forall i :: 0 <= i < |a| ==> Poll(a, adb)[i] == Report(a[i], adb)
  {
    if a != [] {
      var pre := a[..|a| - 1];
      PollReportsEverySlot(pre, adb);
      PollSnoc(a, adb);
      var r := Poll(a, adb);
      forall i | 0 <= i < |pre| ensures r[i] == Report(a[i], adb) {
        assert pre[i] == a[i];
      }
    }
  }

  /** The two differ as soon as one slot is bound. */
  lemma PollAsWrittenLosesUpdates(a: seq<Bound>, adb: Adb)
    requires a != []
    ensures PollAsWritten(a, adb) != Poll(a, adb)
  {
    PollAsWrittenIsEmpty(a, adb);
    PollReportsEverySlot(a, adb);
  }

  method PollBatteries(a: seq<Bound>, adb: Adb) returns (updates: seq<DeviceEvent>)
    ensures updates == Poll(a, adb)
  {
    updates := [];
    var i := 0;
    while i < |a|
      invariant 0 <= i <= |a|
      invariant updates == Poll(a[..i], adb)
    {
      assert a[..i + 1][..i] == a[..i];
      var info := GetBatteryViaAdb(a[i].serial, adb);
      updates := updates + [BatteryUpdate(a[i].slot, a[i].serial, info)];
      i := i + 1;
    }
    assert a[..i] == a;
  }

  // ---------------------------------------------------------------- the events

  function RemovedEvents(bs: seq<Bound>): (r: seq<DeviceEvent>) {
    seq(|bs|, i requires 0 <= i < |bs| => DeviceRemoved(bs[i].slot, bs[i].serial))
  }

  function AddedEvents(bs: seq<Bound>): (r: seq<DeviceEvent>) {
    seq(|bs|, i requires 0 <= i < |bs| => DeviceAdded(bs[i].slot, bs[i].serial))
  }

  /** Lines 86-87. */
  method PostRemoved(removed: seq<Bound>) returns (events: seq<DeviceEvent>)
    ensures events == RemovedEvents(removed)
  {
    events := [];
    var i := 0;
    while i < |removed|
      invariant 0 <= i <= |removed|
      invariant events == RemovedEvents(removed[..i])
    {
      events := events + [DeviceRemoved(removed[i].slot, removed[i].serial)];
      i := i + 1;
    }
    assert removed[..i] == removed;
  }

  /** Lines 88-89. */
  method PostAdded(added: seq<Bound>) returns (events: seq<DeviceEvent>)
    ensures events == AddedEvents(added)
  {
    events := [];
    var i := 0;
    while i < |added|
      invariant 0 <= i <= |added|
      invariant events == AddedEvents(added[..i])
    {
      events := events + [DeviceAdded(added[i].slot, added[i].serial)];
      i := i + 1;
    }
    assert added[..i] == added;
  }

  /** Lines 86-91, after the lock: removals, then additions, then battery updates. */
  method PostAll(removed: seq<Bound>, added: seq<Bound>, updates: seq<DeviceEvent>) returns (events: seq<DeviceEvent>)
    ensures events == RemovedEvents(removed) + AddedEvents(added) + updates
  {
    var gone := PostRemoved(removed);
    var joined := PostAdded(added);
    events := gone + joined + updates;
  }

  function Rank(e: DeviceEvent): nat {
    match e
    case DeviceRemoved(_, _) => 0
    case DeviceAdded(_, _) => 1
    case BatteryUpdate(_, _, _) => 2
  }

  /** Every removal is posted before every addition, and every addition before every battery update. */
  lemma EventsInOrder(removed: seq<Bound>, added: seq<Bound>, a: seq<Bound>, adb: Adb)
    ensures var ev := RemovedEvents(removed) + AddedEvents(added) + Poll(a, adb);
      forall i, j :: 0 <= i < j < |ev| ==> Rank(ev[i]) <= Rank(ev[j])
  {
    PollReportsEverySlot(a, adb);
  }

  // ---------------------------------------------------------------- the thread object

  class DeviceManagerThread {
    /** `self.assigned`, in insertion order. */
    var bindings: seq<Bound>
    var running: bool
    /** `self._last_battery_poll`, in milliseconds. */
    var lastBatteryPoll: int

    constructor ()
      ensures bindings == [] && running && lastBatteryPoll == 0
    {
      bindings := [];
      running := true;
      lastBatteryPoll := 0;
    }

    /** `stop()`. */
    method Stop()
      modifies this
      ensures !running && bindings == old(bindings) && lastBatteryPoll == old(lastBatteryPoll)
    {
      running := false;
    }

    /** Lines 33-69: list the devices and reconcile `assigned` with them. */
    method ReconcileNow(adb: Adb, forward: Forward) returns (o: Outcome)
      requires Valid(bindings)
      modifies this
      ensures o == Reconcile(old(bindings), DevicesOf(RunAdbList(["devices"], adb)), forward)
      ensures bindings == o.bindings && Valid(bindings)
      ensures running == old(running) && lastBatteryPoll == old(lastBatteryPoll)
    {
      var devices := ListAdbDevices(adb);
      ReconcileInvariant(bindings, devices, forward);
      var serials := Present(devices);
      var kept, removed := RemoveVanished(bindings, serials);
      var idle := FreeCamIndices(KeysOf(kept));
      var r := BindNew(serials, kept, idle, forward);
      bindings := r.bindings;
      o := Outcome(r.bindings, removed, r.added);
    }

    /**
     * One pass of the `while self.running` loop at time `now`: list the
     * devices, reconcile, poll batteries once `BATTERY_POLL_INTERVAL` has
     * passed, then post removals, additions and battery updates in that order.
     */
    method Tick(adb: Adb, forward: Forward, now: int) returns (events: seq<DeviceEvent>)
      requires Valid(bindings)
      modifies this
      ensures Valid(bindings)
      ensures var o := Reconcile(old(bindings), DevicesOf(RunAdbList(["devices"], adb)), forward);
        && bindings == o.bindings
        && running == old(running)
        && (if now - old(lastBatteryPoll) >= BatteryPollIntervalMs
            then lastBatteryPoll == now && events == RemovedEvents(o.removed) + AddedEvents(o.added) + Poll(o.bindings, adb)
            else lastBatteryPoll == old(lastBatteryPoll) && events == RemovedEvents(o.removed) + AddedEvents(o.added))
    {
      var o := ReconcileNow(adb, forward);
      var updates := PollIfDue(now, adb);
      events := PostAll(o.removed, o.added, updates);
    }

    /** Lines 72-83: poll every binding once `BATTERY_POLL_INTERVAL` has passed since the last poll. */
    method PollIfDue(now: int, adb: Adb) returns (updates: seq<DeviceEvent>)
      modifies this
      ensures bindings == old(bindings) && running == old(running)
      ensures if now - old(lastBatteryPoll) >= BatteryPollIntervalMs
        then lastBatteryPoll == now && updates == Poll(bindings, adb)
        else lastBatteryPoll == old(lastBatteryPoll) && updates == []
    {
      updates := [];
      if now - lastBatteryPoll >= BatteryPollIntervalMs {
        updates := PollBatteries(bindings, adb);
        lastBatteryPoll := now;
      }
    }
  }
}
