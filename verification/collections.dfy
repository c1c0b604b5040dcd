/**
 * The list and map instructions that log reverse code, and the reverse
 * instructions that undo them (colm/bytecode.c:3054-3136, 3212-3246,
 * 3248-3436).
 *
 * Each `_WV` instruction (the form used while parsing, when effects must
 * be revertible) changes the collection, pushes its result and logs one
 * reverse instruction; the matching `_BKT` instruction, given the operands
 * that were logged, puts the collection back. Trees are named by their
 * address, 0 being the null tree. The list and map primitives themselves
 * live in list.c and map.c, which are not part of this model: a list is
 * the sequence of its elements, a map a finite map from key trees to value
 * trees, and list members a finite map from field numbers to trees.
 */
module Collections {
  import opened Wrappers
  import opened Bytes
  import Op = Opcodes
  import opened ReverseCode

  /** A tree, by address; 0 is the null tree. */
  type TreeId = nat

  /** What an instruction leaves on the VM stack. */
  datatype Pushed = NoValue | BoolValue(b: bool) | TreeValue(t: TreeId)

  /** The outcome of a `_WV` instruction: the collection after it, what it pushed, and the reverse instruction it logged. */
  datatype Forward<S> = Forward(state: S, pushed: Pushed, logged: Instr)

  /** Why an instruction on a collection cannot proceed. */
  datatype CollectionError = EmptyList | HalfLoggedRemove

  // ---------------------------------------------------------------------
  // Lists
  // ---------------------------------------------------------------------

  /** LIST_APPEND_WV: append the value, push true, log LIST_APPEND_BKT with no operands. */
  function ListAppendWV(list: seq<TreeId>, val: TreeId): (r: Forward<seq<TreeId>>)
    ensures |r.state| == |list| + 1 && r.state[..|list|] == list && r.state[|list|] == val
  {
    Forward(list + [val], BoolValue(true), Instr(Op.ListAppendBkt, []))
  }

  /** LIST_APPEND_BKT: remove the last element again (and release it). */
  function ListAppendBkt(list: seq<TreeId>): (r: Result<(seq<TreeId>, TreeId), CollectionError>)
    ensures r.Ok? <==> |list| > 0
    ensures r.Ok? ==> r.value.0 + [r.value.1] == list
  {
    if |list| == 0 then Err(EmptyList) else Ok((list[..|list| - 1], list[|list| - 1]))
  }

  /** LIST_REMOVE_END_WV: remove the last element, push it, and log LIST_REMOVE_END_BKT with it. */
  function ListRemoveEndWV(list: seq<TreeId>): (r: Result<Forward<seq<TreeId>>, CollectionError>)
    ensures r.Ok? <==> |list| > 0
    ensures r.Ok? ==> r.value.pushed.TreeValue? && r.value.state + [r.value.pushed.t] == list
  {
    if |list| == 0 then Err(EmptyList)
    else Ok(Forward(list[..|list| - 1], TreeValue(list[|list| - 1]), Instr(Op.ListRemoveEndBkt, [list[|list| - 1]])))
  }

  /** LIST_REMOVE_END_BKT: append the logged tree again. */
  function ListRemoveEndBkt(list: seq<TreeId>, val: TreeId): (r: seq<TreeId>)
    ensures |r| == |list| + 1 && r[..|list|] == list && r[|list|] == val
  {
    list + [val]
  }

  /** Undoing an append takes the appended value off again and leaves the list as it was. */
  lemma ListAppendUndo(list: seq<TreeId>, val: TreeId)
    ensures ListAppendWV(list, val).logged == Instr(Op.ListAppendBkt, [])
    ensures ListAppendBkt(ListAppendWV(list, val).state) == Ok((list, val))
  {
  }

  /** Undoing a remove-end puts the removed element back at the end. */
  lemma ListRemoveEndUndo(list: seq<TreeId>)
    requires |list| > 0
    ensures ListRemoveEndWV(list).Ok?
    ensures ListRemoveEndWV(list).value.logged == Instr(Op.ListRemoveEndBkt, [list[|list| - 1]])
    ensures ListRemoveEndBkt(ListRemoveEndWV(list).value.state, ListRemoveEndWV(list).value.logged.args[0]) == list
  {
  }

  /** The list member a field names; an unset member is the null tree. */
  function Member(mems: map<nat, TreeId>, field: nat): TreeId
  {
    if field in mems then mems[field] else 0
  }

  /**
   * GET_LIST_MEM_WV: push the member, splitting it so that it may be
   * written, and log GET_LIST_MEM_BKT with the field; the members do not
   * change. The instruction does not end a unit.
   */
  function GetListMemWV(mems: map<nat, TreeId>, field: nat): (r: Forward<map<nat, TreeId>>)
    ensures r.state == mems && r.pushed == TreeValue(Member(mems, field))
    ensures r.logged == Instr(Op.GetListMemBkt, [field])
  {
    Forward(mems, TreeValue(Member(mems, field)), Instr(Op.GetListMemBkt, [field]))
  }

  /** GET_LIST_MEM_BKT: read the member of the logged field again. */
  function GetListMemBkt(mems: map<nat, TreeId>, field: nat): (r: TreeId)
    ensures field in mems ==> r == mems[field]
    ensures field !in mems ==> r == 0
  {
    Member(mems, field)
  }

  /** Going back over a member read pushes the member the forward read pushed, and the members are as they were. */
  lemma GetListMemUndo(mems: map<nat, TreeId>, field: nat)
    ensures var f := GetListMemWV(mems, field);
      f.state == mems && f.pushed == TreeValue(GetListMemBkt(f.state, f.logged.args[0]))
  {
  }

  /** SET_LIST_MEM_WV: store the value in the field and log SET_LIST_MEM_BKT with the field and the member it replaced. */
  function SetListMemWV(mems: map<nat, TreeId>, field: nat, val: TreeId): (r: Forward<map<nat, TreeId>>)
    ensures Member(r.state, field) == val
    ensures forall f :: f != field ==> Member(r.state, f) == Member(mems, f)
    ensures r.logged == Instr(Op.SetListMemBkt, [field, Member(mems, field)])
  {
    Forward(mems[field := val], NoValue, Instr(Op.SetListMemBkt, [field, Member(mems, field)]))
  }

  /** SET_LIST_MEM_BKT: store the logged tree back in the field, releasing the one there. */
  function SetListMemBkt(mems: map<nat, TreeId>, field: nat, val: TreeId): (r: (map<nat, TreeId>, TreeId))
    ensures Member(r.0, field) == val && r.1 == Member(mems, field)
    ensures forall f :: f != field ==> Member(r.0, f) == Member(mems, f)
  {
    (mems[field := val], Member(mems, field))
  }

  /** Undoing a member store puts every member back and releases the value that was stored. */
  lemma SetListMemUndo(mems: map<nat, TreeId>, field: nat, val: TreeId)
    ensures var f := SetListMemWV(mems, field, val);
      var u := SetListMemBkt(f.state, f.logged.args[0], f.logged.args[1]);
      u.1 == val && forall g :: Member(u.0, g) == Member(mems, g)
  {
  }

  // ---------------------------------------------------------------------
  // Maps
  // ---------------------------------------------------------------------

  /** A map as the interpreter keeps it: no null key and no null value. */
  predicate ValidMap(m: map<TreeId, TreeId>)
  {
    0 !in m && forall k :: k in m ==> m[k] != 0
  }

  /** The value stored under a key, the null tree when there is none. */
  function Lookup(m: map<TreeId, TreeId>, key: TreeId): TreeId
  {
    if key in m then m[key] else 0
  }

  /**
   * MAP_INSERT_WV: insert only if the key is absent, push whether it was
   * inserted, and log MAP_INSERT_BKT with that flag as a byte and the key.
   */
  function MapInsertWV(m: map<TreeId, TreeId>, key: TreeId, val: TreeId): (r: Forward<map<TreeId, TreeId>>)
    ensures r.pushed == BoolValue(key !in m)
    ensures key in m ==> r.state == m
    ensures key !in m ==> r.state == m[key := val]
    ensures r.logged == Instr(Op.MapInsertBkt, [if key in m then 0 else 1, key])
  {
    var inserted := key !in m;
    Forward(if inserted then m[key := val] else m, BoolValue(inserted), Instr(Op.MapInsertBkt, [if inserted then 1 else 0, key]))
  }

  /** MAP_INSERT_BKT: take the key out again, but only if the insert happened. */
  function MapInsertBkt(m: map<TreeId, TreeId>, inserted: nat, key: TreeId): (r: map<TreeId, TreeId>)
    ensures inserted != 0 ==> key !in r && forall k :: k in m && k != key ==> k in r && r[k] == m[k]
    ensures inserted == 0 ==> r == m
  {
    if inserted != 0 then m - {key} else m
  }

  /** Undoing an insert, whether it happened or not, gives back the map as it was. */
  lemma MapInsertUndo(m: map<TreeId, TreeId>, key: TreeId, val: TreeId)
    ensures var f := MapInsertWV(m, key, val);
      MapInsertBkt(f.state, f.logged.args[0], f.logged.args[1]) == m
  {
    if key !in m {
      assert m[key := val] - {key} == m;
    }
  }

  /** MAP_STORE_WV: store the element under the key, push whether the key was new, and log MAP_STORE_BKT with the key and the value it replaced. */
  function MapStoreWV(m: map<TreeId, TreeId>, key: TreeId, elem: TreeId): (r: Forward<map<TreeId, TreeId>>)
    ensures r.state == m[key := elem]
    ensures r.pushed == BoolValue(Lookup(m, key) == 0)
    ensures r.logged == Instr(Op.MapStoreBkt, [key, Lookup(m, key)])
  {
    var existing := Lookup(m, key);
    Forward(m[key := elem], BoolValue(existing == 0), Instr(Op.MapStoreBkt, [key, existing]))
  }

  /** MAP_STORE_BKT (`mapUnstore`): a null logged value means the key was new and is removed; otherwise the old value is stored back. */
  function MapStoreBkt(m: map<TreeId, TreeId>, key: TreeId, val: TreeId): (r: map<TreeId, TreeId>)
    ensures val == 0 ==> key !in r
    ensures val != 0 ==> key in r && r[key] == val
    ensures forall k :: k != key ==> (k in r <==> k in m) && (k in r ==> r[k] == m[k])
  {
    if val == 0 then m - {key} else m[key := val]
  }

  /** Undoing a store gives back the map as it was, because a map never holds a null value. */
  lemma MapStoreUndo(m: map<TreeId, TreeId>, key: TreeId, elem: TreeId)
    requires ValidMap(m)
    ensures var f := MapStoreWV(m, key, elem);
      MapStoreBkt(f.state, f.logged.args[0], f.logged.args[1]) == m
  {
    if key !in m {
      assert m[key := elem] - {key} == m;
    } else {
      assert m[key := elem][key := m[key]] == m;
    }
  }

  /** MAP_REMOVE_WV: remove the key, push the value it held, and log MAP_REMOVE_BKT with the removed key and value (both null if absent). */
  function MapRemoveWV(m: map<TreeId, TreeId>, key: TreeId): (r: Forward<map<TreeId, TreeId>>)
    ensures r.state == m - {key}
    ensures r.pushed == TreeValue(Lookup(m, key))
    ensures key in m ==> r.logged == Instr(Op.MapRemoveBkt, [key, m[key]])
    ensures key !in m ==> r.logged == Instr(Op.MapRemoveBkt, [0, 0])
  {
    var pair := if key in m then (key, m[key]) else (0, 0);
    Forward(m - {key}, TreeValue(pair.1), Instr(Op.MapRemoveBkt, [pair.0, pair.1]))
  }

  /**
   * MAP_REMOVE_BKT: the logged key and value are both null (nothing was
   * removed) or both set, in which case the pair is put back; one without
   * the other fails the interpreter's assertion.
   */
  function MapRemoveBkt(m: map<TreeId, TreeId>, key: TreeId, val: TreeId): (r: Result<map<TreeId, TreeId>, CollectionError>)
    ensures r.Err? <==> ((key == 0) != (val == 0))
    ensures r.Ok? && key != 0 ==> r.value == m[key := val]
    ensures r.Ok? && key == 0 ==> r.value == m
  {
    if (key == 0) != (val == 0) then Err(HalfLoggedRemove)
    else if key != 0 then Ok(m[key := val])
    else Ok(m)
  }

  /** Undoing a remove gives back the map as it was, whether the key was there or not. */
  lemma MapRemoveUndo(m: map<TreeId, TreeId>, key: TreeId)
    requires ValidMap(m)
    ensures var f := MapRemoveWV(m, key);
      MapRemoveBkt(f.state, f.logged.args[0], f.logged.args[1]) == Ok(m)
  {
    if key in m {
      assert (m - {key})[key := m[key]] == m;
    } else {
      assert m - {key} == m;
    }
  }

  /** The map instructions keep a map free of null keys and values when the trees they are given are not null. */
  lemma MapOpsKeepValid(m: map<TreeId, TreeId>, key: TreeId, val: TreeId)
    requires ValidMap(m) && key != 0 && val != 0
    ensures ValidMap(MapInsertWV(m, key, val).state)
    ensures ValidMap(MapStoreWV(m, key, val).state)
    ensures ValidMap(MapRemoveWV(m, key).state)
  {
  }

  // ---------------------------------------------------------------------
  // The logged instructions are reverse code `rcodeDownref` can read
  // ---------------------------------------------------------------------

  /**
   * The reverse instructions the list operations log are well formed when
   * the trees fit in a word and the field in a half, so they read back as
   * logged (ReverseCode.ReadBack) and walk as ReverseCode.WalkEncoded says.
   */
  lemma ListLoggedWellFormed(list: seq<TreeId>, mems: map<nat, TreeId>, field: nat, val: TreeId, w: WordSize)
    requires field < Pow256(2) && val < Pow256(w)
    requires forall i :: 0 <= i < |list| ==> list[i] < Pow256(w)
    requires forall f :: f in mems ==> mems[f] < Pow256(w)
    ensures WellFormed(ListAppendWV(list, val).logged, w)
    ensures |list| > 0 ==> WellFormed(ListRemoveEndWV(list).value.logged, w)
    ensures WellFormed(SetListMemWV(mems, field, val).logged, w)
    ensures WellFormed(GetListMemWV(mems, field).logged, w)
  {
    Op.CollectionShapes();
    FitsOne(field, Op.OHalf, w);
    if |list| > 0 {
      FitsOne(list[|list| - 1], Op.OTree(true), w);
    }
    FitsPair(field, Member(mems, field), Op.OHalf, Op.OTree(true), w);
  }

  /** The same for the reverse instructions the map operations log. */
  lemma MapLoggedWellFormed(m: map<TreeId, TreeId>, key: TreeId, val: TreeId, w: WordSize)
    requires key < Pow256(w) && val < Pow256(w)
    requires forall k :: k in m ==> m[k] < Pow256(w)
    ensures WellFormed(MapInsertWV(m, key, val).logged, w)
    ensures WellFormed(MapStoreWV(m, key, val).logged, w)
    ensures WellFormed(MapRemoveWV(m, key).logged, w)
  {
    Op.CollectionShapes();
    assert Pow256(1) == 256;
    FitsPair(if key in m then 0 else 1, key, Op.OByte, Op.OTree(true), w);
    FitsPair(key, Lookup(m, key), Op.OTree(true), Op.OTree(true), w);
    if key in m {
      FitsPair(key, m[key], Op.OTree(true), Op.OTree(true), w);
    } else {
      FitsPair(0, 0, Op.OTree(true), Op.OTree(true), w);
    }
  }

  // ---------------------------------------------------------------------
  // Unit lengths
  // ---------------------------------------------------------------------

  lemma EncodeOneLength(a: nat, o: Op.Operand, w: WordSize)
    ensures |EncodeArgs([a], [o], w)| == Op.Width(o, w)
  {
    assert [a][1..] == [] && [o][1..] == [];
  }

  lemma EncodePairLength(a: nat, b: nat, o: Op.Operand, p: Op.Operand, w: WordSize)
    ensures |EncodeArgs([a, b], [o, p], w)| == Op.Width(o, w) + Op.Width(p, w)
  {
    assert [a, b][1..] == [b] && [o, p][1..] == [p];
    EncodeOneLength(b, p, w);
  }

  /**
   * Each reverse instruction the list instructions log takes exactly the
   * bytes the interpreter adds to `rcodeUnitLen` for it: a code byte, then
   * a half or a word as its operands need, so the unit length written at
   * the flush covers the unit.
   */
  lemma ListLoggedLengths(list: seq<TreeId>, mems: map<nat, TreeId>, field: nat, val: TreeId, w: WordSize)
    ensures |Encode(ListAppendWV(list, val).logged, w)| == Op.SizeofCode
    ensures |list| > 0 ==> |Encode(ListRemoveEndWV(list).value.logged, w)| == Op.SizeofCode + w
    ensures |Encode(GetListMemWV(mems, field).logged, w)| == Op.SizeofCode + Op.SizeofHalf
    ensures |Encode(SetListMemWV(mems, field, val).logged, w)| == Op.SizeofCode + Op.SizeofHalf + w
  {
    Op.CollectionShapes();
    if |list| > 0 {
      EncodeOneLength(list[|list| - 1], Op.OTree(true), w);
    }
    EncodeOneLength(field, Op.OHalf, w);
    EncodePairLength(field, Member(mems, field), Op.OHalf, Op.OTree(true), w);
  }

  /** The same for the map instructions: a code byte, then a byte and a word, or two words. */
  lemma MapLoggedLengths(m: map<TreeId, TreeId>, key: TreeId, val: TreeId, w: WordSize)
    ensures |Encode(MapInsertWV(m, key, val).logged, w)| == Op.SizeofCode + Op.SizeofCode + w
    ensures |Encode(MapStoreWV(m, key, val).logged, w)| == Op.SizeofCode + w + w
    ensures |Encode(MapRemoveWV(m, key).logged, w)| == Op.SizeofCode + w + w
  {
    Op.CollectionShapes();
    EncodePairLength(if key in m then 0 else 1, key, Op.OByte, Op.OTree(true), w);
    EncodePairLength(key, Lookup(m, key), Op.OTree(true), Op.OTree(true), w);
    var pair := if key in m then (key, m[key]) else (0, 0);
    EncodePairLength(pair.0, pair.1, Op.OTree(true), Op.OTree(true), w);
  }
}
