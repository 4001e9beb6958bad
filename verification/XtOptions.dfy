/**
 * The libxtables option table as ConnMan's patched `reset_xtables` and `xtables_merge_options` share it:
 * who owns the table, how merged options are numbered, and how a number finds its way back.
 */
module XtOptions {
  import opened Words

  const SCALE: nat := 256  // XT_OPTION_OFFSET_SCALE

  /** `struct option`; an entry without a name ends a table. */
  datatype Opt = Opt(name: Option<string>, val: int)

  const SENTINEL := Opt(None, 0)

  /** A value of a `struct option *`. */
  datatype Ptr = Null | Static | Heap(id: nat)

  /** `xtables_free_opts` up to 1.8.10 and from 1.8.11 on. */
  datatype Policy = Guarded | Unconditional

  /** A table of named entries with a sentinel behind them. */
  predicate Terminated(table: seq<Opt>) {
    && table != [] && table[|table| - 1] == SENTINEL
    && AllNamed(Named(table))
  }

  predicate AllNamed(entries: seq<Opt>) {
    forall i | 0 <= i < |entries| :: entries[i].name.Some?
  }

  /** The named entries of a table. */
  function Named(table: seq<Opt>): seq<Opt>
    requires table != []
  {
    table[..|table| - 1]
  }

  /** Entries moved into the window that starts at `offset`; `val` is a C int. */
  function Shift(entries: seq<Opt>, offset: int): seq<Opt> {
    seq(|entries|, i requires 0 <= i < |entries| => entries[i].(val := Int32(entries[i].val + offset)))
  }

  /** The offset of the k-th extension merged since a reset; the counter is a 32-bit unsigned int. */
  function OffsetOf(k: nat): uint32 {
    SCALE * k % TWO_32
  }

  lemma OffsetStep(k: nat)
    ensures (OffsetOf(k) + SCALE) % TWO_32 == OffsetOf(k + 1)
  {
  }

  /** The extension part of a table: the extension merged last comes first. */
  function Tail(exts: seq<seq<Opt>>): seq<Opt> {
    if exts == [] then []
    else Shift(exts[|exts| - 1], OffsetOf(|exts|)) + Tail(exts[..|exts| - 1])
  }

  /** The table after the extensions `exts` were merged, in this order, onto the template. */
  function Layout(template: seq<Opt>, exts: seq<seq<Opt>>): seq<Opt>
    requires template != []
  {
    Named(template) + Tail(exts) + [SENTINEL]
  }

  lemma {:induction false} TailNamed(exts: seq<seq<Opt>>)
    requires forall e | e in exts :: AllNamed(e)
    ensures AllNamed(Tail(exts))
  {
    if exts != [] {
      TailNamed(exts[..|exts| - 1]);
      assert AllNamed(exts[|exts| - 1]);
    }
  }

  lemma LayoutTerminated(template: seq<Opt>, exts: seq<seq<Opt>>)
    requires Terminated(template)
    requires forall e | e in exts :: AllNamed(e)
    ensures Terminated(Layout(template, exts))
  {
    TailNamed(exts);
  }

  lemma TailExtends(exts: seq<seq<Opt>>, ext: seq<Opt>)
    ensures Tail(exts + [ext]) == Shift(ext, OffsetOf(|exts| + 1)) + Tail(exts)
  {
    var all := exts + [ext];
    assert all[..|all| - 1] == exts && all[|all| - 1] == ext && |all| == |exts| + 1;
  }

  lemma Regroup(a: seq<Opt>, b: seq<Opt>, c: seq<Opt>, d: seq<Opt>)
    ensures a + (b + c) + d == a + b + c + d
  {
  }

  /** Merging puts the shifted extension between the template and the extensions merged before. */
  lemma LayoutMerge(template: seq<Opt>, exts: seq<seq<Opt>>, ext: seq<Opt>)
    requires template != []
    ensures Layout(template, exts + [ext]) ==
            Named(template) + Shift(ext, OffsetOf(|exts| + 1)) + Tail(exts) + [SENTINEL]
  {
    TailExtends(exts, ext);
    Regroup(Named(template), Shift(ext, OffsetOf(|exts| + 1)), Tail(exts), [SENTINEL]);
  }

  /** The example of section B.2: tcp was merged first, REJECT second, and stands before it. */
  lemma TwoExtensions(template: seq<Opt>)
    requires template != []
    ensures var tcp := [Opt(Some("dport"), 1), Opt(Some("sport"), 2)];
            var reject := [Opt(Some("reject-with"), 1)];
            Layout(template, [tcp, reject]) ==
            Named(template) +
            [Opt(Some("reject-with"), 513), Opt(Some("dport"), 257), Opt(Some("sport"), 258), Opt(None, 0)]
  {
    var tcp := [Opt(Some("dport"), 1), Opt(Some("sport"), 2)];
    var reject := [Opt(Some("reject-with"), 1)];
    assert [tcp, reject][..1] == [tcp] && [tcp][..0] == [] && Tail([]) == [];
    assert Tail([tcp]) == [Opt(Some("dport"), 257), Opt(Some("sport"), 258)];
    assert Shift(reject, 512) == [Opt(Some("reject-with"), 513)];
  }

  lemma LayoutEmpty(template: seq<Opt>)
    requires Terminated(template)
    ensures Layout(template, []) == template
  {
    assert Tail([]) == [];
  }

  lemma Assembled(table: seq<Opt>, a: seq<Opt>, b: seq<Opt>, c: seq<Opt>)
    requires |table| == |a| + |b| + |c| + 1 && table[|table| - 1] == SENTINEL
    requires forall k | 0 <= k < |a| :: table[0 + k] == a[k]
    requires forall k | 0 <= k < |b| :: table[|a| + k] == b[k]
    requires forall k | 0 <= k < |c| :: table[|a| + |b| + k] == c[k]
    ensures table == a + b + c + [SENTINEL]
  {
  }

  // ------------------------------------------------------------------ the shared parameters

  /** One operation on the parameters of an address family; a reset may find no memory for its copy. */
  datatype Op = Reset(enough: bool) | Merge(newopts: seq<Opt>)

  predicate WellFormed(op: Op) {
    op.Merge? ==> Terminated(op.newopts)
  }

  /** `struct xtables_globals` with the heap behind it. Memory errors end the process. */
  class XtParams {
    const template: seq<Opt>  // the static table, `orig_opts`
    const policy: Policy
    var opts: Ptr
    var optionOffset: uint32
    var heap: map<nat, seq<Opt>>
    var aborted: bool
    var nextId: nat  // the heap blocks handed out so far are 0 .. nextId
    ghost var freed: seq<nat>    // every heap block given back, in order
    ghost var merged: seq<seq<Opt>>  // the extensions merged since the last reset

    /** The initial state of ConnMan's globals: `opts` is the static table itself. */
    constructor (template: seq<Opt>, policy: Policy)
      requires Terminated(template)
      ensures this.template == template && this.policy == policy
      ensures Valid() && opts == Static && merged == [] && !aborted
    {
      this.template, this.policy := template, policy;
      opts, optionOffset, heap, aborted := Static, 0, map[], false;
      nextId, freed, merged := 0, [], [];
    }

    /** At most one table is live, `opts` owns it, and everything else handed out was freed once. */
    ghost predicate Ledger()
      reads this
    {
      && heap.Keys == (if opts.Heap? then {opts.id} else {})
      && (forall id: nat :: id in heap || id in freed <==> id < nextId)
      && (forall id | id in freed :: id !in heap)
      && (forall i, j | 0 <= i < j < |freed| :: freed[i] != freed[j])
    }

    /** Between operations the ledger is in order, and offset and table are those of the merged extensions. */
    ghost predicate Valid()
      reads this
    {
      Ledger() && Listed() && !aborted && optionOffset == OffsetOf(|merged|)
    }

    /** The working table lists the merged extensions. */
    ghost predicate Listed()
      reads this
    {
      && Terminated(template) && (forall e | e in merged :: AllNamed(e))
      && (opts.Heap? ==> opts.id in heap && heap[opts.id] == Layout(template, merged))
      && (!opts.Heap? ==> merged == [])
    }

    /** `malloc` of a table: a block never handed out before. */
    method Malloc(table: seq<Opt>) returns (p: Ptr)
      modifies this`heap, this`nextId
      ensures p == Heap(old(nextId)) && nextId == old(nextId) + 1
      ensures heap == old(heap)[p.id := table]
    {
      p := Heap(nextId);
      nextId := nextId + 1;
      heap := heap[p.id := table];
    }

    /** `free`: NULL is fine; anything but a live heap block makes glibc abort. */
    method Free(p: Ptr)
      modifies this`heap, this`freed, this`aborted
      ensures p == Null || (p.Heap? && p.id in old(heap)) ==> aborted == old(aborted)
      ensures !(p == Null || (p.Heap? && p.id in old(heap))) ==> aborted
      ensures heap == if p.Heap? then old(heap) - {p.id} else old(heap)
      ensures freed == if p.Heap? && p.id in old(heap) then old(freed) + [p.id] else old(freed)
    {
      if p.Heap? && p.id in heap {
        heap := heap - {p.id};
        freed := freed + [p.id];
      } else if p != Null {
        aborted := true;
      }
    }

    /** Count entries up to the sentinel. */
    static method Count(table: seq<Opt>) returns (n: nat)
      requires Terminated(table)
      ensures n == |Named(table)|
    {
      n := 0;
      while table[n].name.Some?
        invariant n < |table|
        decreases |table| - n
      {
        n := n + 1;
      }
    }

    /** Read the table behind a pointer; NULL and freed blocks crash. */
    method Load(p: Ptr) returns (table: seq<Opt>)
      modifies this`aborted
      ensures p == Static || (p.Heap? && p.id in heap) ==>
                aborted == old(aborted) && table == if p == Static then template else heap[p.id]
      ensures !(p == Static || (p.Heap? && p.id in heap)) ==> aborted
    {
      table := template;
      if p.Heap? && p.id in heap {
        table := heap[p.id];
      } else if p != Static {
        aborted := true;
      }
    }

    /** `dup_orig_opts`: a heap copy of the template, or NULL when there is no memory. */
    method DupOrigOpts(enough: bool) returns (p: Ptr)
      requires Terminated(template)
      modifies this`heap, this`nextId
      ensures p == Null <==> !enough
      ensures p == Null ==> heap == old(heap) && nextId == old(nextId)
      ensures p != Null ==>
                p == Heap(old(nextId)) && nextId == old(nextId) + 1 &&
                heap == old(heap)[p.id := template]
    {
      var i := Count(template);
      if !enough {
        return Null;
      }
      var copy := new Opt[i + 1](_ => SENTINEL);
      forall k | 0 <= k < i {
        copy[k] := template[k];
      }
      assert copy[..] == template;
      p := Malloc(copy[..]);
    }

    /** Free the working table unless it is the static one, and take a copy of the template or NULL. */
    method RenewTable(enough: bool)
      requires Ledger() && !aborted && Terminated(template)
      modifies this`heap, this`freed, this`aborted, this`opts, this`nextId
      ensures Ledger() && !aborted && opts != Static && (opts == Null <==> !enough)
      ensures opts.Heap? ==> heap == map[opts.id := template]
    {
      if opts != Static {
        Free(opts);
      }
      opts := DupOrigOpts(enough);
    }

    /** `reset_xtables`. */
    method Reset(enough: bool)
      requires Valid()
      modifies this
      ensures Valid() && merged == [] && opts != Static && optionOffset == 0 && (opts == Null <==> !enough)
      ensures opts.Heap? ==> heap == map[opts.id := template]
    {
      RenewTable(enough);
      optionOffset := 0;
      merged := [];
      LayoutEmpty(template);
    }

    /** `xtables_free_opts` in the two versions. */
    method FreeOpts()
      modifies this`heap, this`freed, this`aborted, this`opts
      ensures opts == Null || (policy == Guarded && opts == Static == old(opts))
      ensures aborted <==> old(aborted) || (policy == Unconditional && old(opts) == Static)
                           || (old(opts).Heap? && old(opts).id !in old(heap))
      ensures heap == if old(opts).Heap? then old(heap) - {old(opts).id} else old(heap)
      ensures freed == if old(opts).Heap? && old(opts).id in old(heap) then old(freed) + [old(opts).id] else old(freed)
    {
      if policy == Unconditional || opts != Static {
        Free(opts);
        opts := Null;
      }
    }

    /** Allocate the new table, free the old one, and store the result as the caller does. */
    method ReplaceTable(table: seq<Opt>)
      requires Ledger() && !aborted
      modifies this`heap, this`freed, this`aborted, this`opts, this`nextId
      ensures aborted <==> policy == Unconditional && old(opts) == Static
      ensures !aborted ==> Ledger() && opts.Heap? && heap[opts.id] == table
    {
      var merge := Malloc(table);
      FreeOpts();
      opts := merge;
    }

    /** Read the working table. */
    method LoadOpts() returns (table: seq<Opt>)
      requires Listed() && opts != Null
      modifies this`aborted
      ensures aborted == old(aborted) && table == Layout(template, merged) && Terminated(table)
    {
      LayoutTerminated(template, merged);
      LayoutEmpty(template);
      table := Load(opts);
    }

    /** Steps 1 and 2: how many options the working table holds beyond the copy of the template. */
    method CountOld(numOold: nat) returns (numOld: nat)
      requires Listed() && numOold == |Named(template)|
      modifies this`aborted
      ensures aborted == old(aborted) && numOld == |Tail(merged)|
    {
      numOld := 0;
      if opts != Null {
        var table := LoadOpts();
        numOld := Count(table);
        numOld := numOld - numOold;
      }
    }

    /** Step 5: copy the tail of the working table, read only now. */
    method CopyOld(merge: array<Opt>, mp: nat, numOold: nat, numOld: nat)
      requires Listed() && numOold == |Named(template)| && numOld == |Tail(merged)|
      requires mp + numOld <= merge.Length
      modifies this`aborted, merge
      ensures aborted == old(aborted)
      ensures forall k | 0 <= k < numOld :: merge[mp + k] == Tail(merged)[k]
      ensures forall k | 0 <= k < mp || mp + numOld <= k < merge.Length :: merge[k] == old(merge[k])
    {
      if opts != Null {
        var oldopts := LoadOpts();
        assert oldopts[numOold..numOold + numOld] == Tail(merged);
        Copy(merge, mp, oldopts[numOold..numOold + numOld]);
      }
    }

    /** Step 4: copy the new options behind the template and move their values; `at` is where `mp` stands. */
    static method ShiftInto(merge: array<Opt>, at: nat, newopts: seq<Opt>, offset: uint32) returns (mp: nat)
      requires at + |newopts| <= merge.Length
      modifies merge
      ensures mp == at + |newopts|
      ensures forall k | 0 <= k < |newopts| :: merge[at + k] == Shift(newopts, offset)[k]
      ensures forall k | 0 <= k < at || mp <= k < merge.Length :: merge[k] == old(merge[k])
    {
      mp := at;
      var i := 0;
      while i < |newopts|
        invariant i <= |newopts| && mp == at + i
        invariant forall k | 0 <= k < i :: merge[at + k] == Shift(newopts, offset)[k]
        invariant forall k | 0 <= k < at || mp <= k < merge.Length :: merge[k] == old(merge[k])
      {
        merge[mp] := newopts[i].(val := Int32(newopts[i].val + offset));
        i, mp := i + 1, mp + 1;
      }
    }

    /** `memcpy` of table entries. */
    static method Copy(merge: array<Opt>, at: nat, entries: seq<Opt>)
      requires at + |entries| <= merge.Length
      modifies merge
      ensures forall k | 0 <= k < |entries| :: merge[at + k] == entries[k]
      ensures forall k | 0 <= k < at || at + |entries| <= k < merge.Length :: merge[k] == old(merge[k])
    {
      forall k | 0 <= k < |entries| {
        merge[at + k] := entries[k];
      }
    }

    /** Steps 1 to 5 of the merge: template, shifted new options, the old table's tail, sentinel. */
    method BuildMerge(newopts: seq<Opt>) returns (table: seq<Opt>)
      requires Listed() && Terminated(newopts)
      modifies this`aborted, this`optionOffset
      ensures aborted == old(aborted) && optionOffset == (old(optionOffset) + SCALE) % TWO_32
      ensures table == Named(template) + Shift(Named(newopts), optionOffset) + Tail(merged) + [SENTINEL]
    {
      var numOold := Count(template);
      var numOld := CountOld(numOold);
      var numNew := Count(newopts);
      var merge := new Opt[numOold + numOld + numNew + 1](_ => SENTINEL);
      Copy(merge, 0, Named(template));
      optionOffset := (optionOffset + SCALE) % TWO_32;
      var mp := ShiftInto(merge, numOold, Named(newopts), optionOffset);
      CopyOld(merge, mp, numOold, numOld);
      table := merge[..];
      Assembled(table, Named(template), Shift(Named(newopts), optionOffset), Tail(merged));
    }

    /**
     * `xtables_merge_options(orig_opts, opts, newopts, &offset)`, with the caller's assignment of the
     * result to `opts`. It succeeds unless the unconditional free meets the static table.
     */
    method MergeOptions(newopts: seq<Opt>) returns (offset: uint32)
      requires Valid() && Terminated(newopts)
      modifies this
      ensures aborted <==> policy == Unconditional && old(opts) == Static
      ensures !aborted ==> Valid() && opts.Heap? && merged == old(merged) + [Named(newopts)]
      ensures !aborted ==> offset == OffsetOf(|merged|) == optionOffset
    {
      OffsetStep(|merged|);
      var merge := BuildMerge(newopts);
      offset := optionOffset;
      LayoutMerge(template, merged, Named(newopts));
      ReplaceTable(merge);
      merged := merged + [Named(newopts)];
      assert AllNamed(Named(newopts));
    }

    /** One operation. */
    method Perform(op: Op)
      requires Valid() && WellFormed(op)
      modifies this
      ensures aborted <==> op.Merge? && policy == Unconditional && old(opts) == Static
      ensures !aborted ==> Valid() && opts != Static && merged == Remaining(old(merged), op)
      ensures !aborted ==> (opts == Null <==> op == Op.Reset(false))
    {
      if op.Reset? {
        Reset(op.enough);
      } else {
        var _ := MergeOptions(op.newopts);
      }
    }

    /**
     * Any sequence of resets and merges. The process survives unless the very first operation merges
     * under the unconditional policy, which is the crash the patch was written for.
     */
    method Run(ops: seq<Op>)
      requires Valid() && opts == Static
      requires forall i | 0 <= i < |ops| :: WellFormed(ops[i])
      modifies this
      ensures aborted <==> policy == Unconditional && ops != [] && ops[0].Merge?
      ensures !aborted ==> Valid() && merged == MergedSinceReset(ops) && (opts == Static <==> ops == [])
      ensures !aborted ==> (opts == Null <==> ops != [] && ops[|ops| - 1] == Op.Reset(false))
    {
      if ops != [] {
        Run(ops[..|ops| - 1]);
        if !aborted {
          Perform(ops[|ops| - 1]);
        }
      }
    }
  }

  /** What an operation makes of the list of merged extensions. */
  function Remaining(merged: seq<seq<Opt>>, op: Op): seq<seq<Opt>>
    requires WellFormed(op)
  {
    match op
    case Reset(_) => []
    case Merge(newopts) => merged + [Named(newopts)]
  }

  /** The extensions merged by the operations after the last reset. */
  function MergedSinceReset(ops: seq<Op>): seq<seq<Opt>>
    requires forall i | 0 <= i < |ops| :: WellFormed(ops[i])
  {
    if ops == [] then [] else Remaining(MergedSinceReset(ops[..|ops| - 1]), ops[|ops| - 1])
  }

  // ------------------------------------------------------------------ from option value to extension

  /** The range test of `parse_xt_modules` for an extension with the given offset; both sides are int. */
  predicate InWindow(c: int, offset: uint32) {
    !(c < Int32(offset) || c >= Int32(offset) + SCALE)
  }

  /** Extension numbers whose window lies inside the range of int. */
  predicate Encodable(k: nat) {
    SCALE * (k + 1) < TWO_31
  }

  /** A value in [0, 256) shifted by offset j lies in window j alone, and comes back unshifted. */
  lemma WindowsDecode(val: int, j: nat, k: nat)
    requires 0 <= val < SCALE && 0 < j && Encodable(j) && Encodable(k)
    ensures InWindow(Int32(val + OffsetOf(j)), OffsetOf(k)) <==> k == j
    ensures Int32(val + OffsetOf(j)) - OffsetOf(j) == val
    ensures 0 < k ==> !InWindow(val, OffsetOf(k))
  {
    assert SCALE * j < TWO_31 && SCALE * k < TWO_31;
    assert OffsetOf(j) == SCALE * j && OffsetOf(k) == SCALE * k;
  }

  /** An option is routed to its own extension exactly when its declared value is below 256. */
  lemma OwnWindowIffSmall(val: int, j: nat)
    requires 0 <= val && 0 < j && val + SCALE * (j + 1) < TWO_31
    ensures InWindow(Int32(val + OffsetOf(j)), OffsetOf(j)) <==> val < SCALE
    ensures InWindow(Int32(val + OffsetOf(j)), OffsetOf(j + val / SCALE))
  {
    var w := val / SCALE;
    assert SCALE * w <= val < SCALE * w + SCALE;
    SmallOffset(j);
    SmallOffset(j + w);
  }

  lemma SmallOffset(k: nat)
    requires SCALE * k < TWO_31
    ensures OffsetOf(k) == SCALE * k == Int32(OffsetOf(k))
  {
  }

  /** `getopt_long` looks an option up by its name and reports the value of the first match. */
  function Lookup(table: seq<Opt>, name: string): Option<int> {
    if table == [] || table[0].name.None? then None
    else if table[0].name == Some(name) then Some(table[0].val)
    else Lookup(table[1..], name)
  }

  predicate Lists(entries: seq<Opt>, name: string) {
    exists i :: 0 <= i < |entries| && entries[i].name == Some(name)
  }

  /** Entries that do not list the name are passed over. */
  lemma {:induction false} LookupSkips(entries: seq<Opt>, rest: seq<Opt>, name: string)
    requires AllNamed(entries) && !Lists(entries, name)
    ensures Lookup(entries + rest, name) == Lookup(rest, name)
  {
    if entries == [] {
      assert entries + rest == rest;
    } else {
      assert entries[0].name != Some(name);
      assert (entries + rest)[1..] == entries[1..] + rest;
      LookupSkips(entries[1..], rest, name);
    }
  }

  /** Within one extension, the lookup finds its own entry, shifted. */
  lemma {:induction false} LookupShifted(ext: seq<Opt>, offset: int, rest: seq<Opt>, name: string)
    requires AllNamed(ext) && Lists(ext, name)
    ensures Lookup(ext, name).Some?
    ensures Lookup(Shift(ext, offset) + rest, name) == Some(Int32(Lookup(ext, name).value + offset))
  {
    var shifted := Shift(ext, offset);
    assert (shifted + rest)[0] == shifted[0];
    if ext[0].name != Some(name) {
      assert (shifted + rest)[1..] == Shift(ext[1..], offset) + rest;
      var i :| 0 <= i < |ext| && ext[i].name == Some(name);
      assert ext[1..][i - 1].name == Some(name);
      LookupShifted(ext[1..], offset, rest, name);
    }
  }

  lemma ShiftLists(ext: seq<Opt>, offset: int, name: string)
    ensures Lists(Shift(ext, offset), name) ==> Lists(ext, name)
    ensures AllNamed(ext) ==> AllNamed(Shift(ext, offset))
  {
    if i :| 0 <= i < |ext| && Shift(ext, offset)[i].name == Some(name) {
      assert ext[i].name == Some(name);
    }
  }

  lemma {:induction false} TailLookup(exts: seq<seq<Opt>>, j: nat, name: string)
    requires j < |exts| && (forall e | e in exts :: AllNamed(e)) && Lists(exts[j], name)
    requires forall k | j < k < |exts| :: !Lists(exts[k], name)
    ensures Lookup(exts[j], name).Some?
    ensures Lookup(Tail(exts) + [SENTINEL], name) == Some(Int32(Lookup(exts[j], name).value + OffsetOf(j + 1)))
  {
    var last, front := |exts| - 1, exts[..|exts| - 1];
    var shifted, rest := Shift(exts[last], OffsetOf(|exts|)), Tail(front) + [SENTINEL];
    assert Tail(exts) + [SENTINEL] == shifted + rest;
    if j == last {
      LookupShifted(exts[last], OffsetOf(|exts|), rest, name);
    } else {
      ShiftLists(exts[last], OffsetOf(|exts|), name);
      LookupSkips(shifted, rest, name);
      TailLookup(front, j, name);
    }
  }

  /**
   * From a command-line option to its extension: however many extensions are merged, looking up a name
   * that only extension j uses yields a value in j's window and no other, and subtracting j's offset
   * gives the value the extension declared.
   */
  lemma OptionReachesItsExtension(template: seq<Opt>, exts: seq<seq<Opt>>, j: nat, name: string, k: nat)
    requires Terminated(template) && j < |exts| && (forall e | e in exts :: AllNamed(e))
    requires Lists(exts[j], name) && !Lists(Named(template), name)
    requires forall i | j < i < |exts| :: !Lists(exts[i], name)
    requires forall i | 0 <= i < |exts[j]| :: 0 <= exts[j][i].val < 256
    requires Encodable(|exts|) && k < |exts|
    ensures Lookup(exts[j], name).Some? && Lookup(Layout(template, exts), name).Some?
    ensures var c := Lookup(Layout(template, exts), name).value;
            && (InWindow(c, OffsetOf(k + 1)) <==> k == j)
            && c == 256 * (j + 1) + Lookup(exts[j], name).value
  {
    assert Layout(template, exts) == Named(template) + (Tail(exts) + [SENTINEL]);
    LookupSkips(Named(template), Tail(exts) + [SENTINEL], name);
    TailLookup(exts, j, name);
    LookupInTable(exts[j], name);
    SmallOffset(j + 1);
    WindowsDecode(Lookup(exts[j], name).value, j + 1, k + 1);
  }

  /** Entries that list the name decide the lookup. */
  lemma {:induction false} LookupStops(entries: seq<Opt>, rest: seq<Opt>, name: string)
    requires AllNamed(entries) && Lists(entries, name)
    ensures Lookup(entries, name).Some? && Lookup(entries + rest, name) == Lookup(entries, name)
  {
    assert (entries + rest)[0] == entries[0];
    if entries[0].name != Some(name) {
      assert (entries + rest)[1..] == entries[1..] + rest;
      var i :| 0 <= i < |entries| && entries[i].name == Some(name);
      assert entries[1..][i - 1].name == Some(name);
      LookupStops(entries[1..], rest, name);
    }
  }

  /**
   * A base option keeps its meaning however many extensions are merged: looking up its name yields the
   * value the template declares, and that value lies in the window of extension k exactly when it was
   * declared there. Values below 256, in particular, lie in no window.
   */
  lemma BaseOptionStaysBase(template: seq<Opt>, exts: seq<seq<Opt>>, name: string, k: nat)
    requires Terminated(template) && Lists(Named(template), name)
    requires Encodable(|exts|) && k < |exts|
    ensures Lookup(Named(template), name).Some?
    ensures Lookup(Layout(template, exts), name) == Lookup(Named(template), name)
    ensures var c := Lookup(Layout(template, exts), name).value;
            InWindow(c, OffsetOf(k + 1)) <==> 256 * (k + 1) <= c < 256 * (k + 2)
  {
    assert Layout(template, exts) == Named(template) + (Tail(exts) + [SENTINEL]);
    LookupStops(Named(template), Tail(exts) + [SENTINEL], name);
    SmallOffset(k + 1);
  }

  lemma {:induction false} LookupInTable(entries: seq<Opt>, name: string)
    requires Lookup(entries, name).Some?
    ensures exists i :: 0 <= i < |entries| && entries[i] == Opt(Some(name), Lookup(entries, name).value)
  {
    if entries[0].name == Some(name) {
      assert entries[0] == Opt(Some(name), Lookup(entries, name).value);
    } else {
      LookupInTable(entries[1..], name);
      var i :| 0 <= i < |entries[1..]| && entries[1..][i] == Opt(Some(name), Lookup(entries[1..], name).value);
      assert entries[i + 1] == entries[1..][i];
    }
  }
}
