/** Kernel arguments packed at aligned offsets: eight bytes for a global, four for a variable. */
module KernargLayout {
  import opened FloatGrid
  import opened ByteCodec

  function FieldWidth(storage: bool): nat {
    if storage then 8 else 4
  }

  predicate Aligned(x: nat, storage: bool) {
    if storage then x % 8 == 0 else x % 4 == 0
  }

  /** The next multiple of the field's width. */
  function NextMultiple(x: nat, storage: bool): (r: nat)
    ensures x <= r < x + FieldWidth(storage) && Aligned(r, storage)
  {
    if storage then
      RoundsUpTo8(x);
      (x + 7) / 8 * 8
    else
      RoundsUpTo4(x);
      (x + 3) / 4 * 4
  }

  lemma RoundsUpTo8(x: nat)
    ensures x <= (x + 7) / 8 * 8 < x + 8 && (x + 7) / 8 * 8 % 8 == 0
  {
    var q, r := (x + 7) / 8, (x + 7) % 8;
    assert x + 7 == q * 8 + r;
  }

  lemma RoundsUpTo4(x: nat)
    ensures x <= (x + 3) / 4 * 4 < x + 4 && (x + 3) / 4 * 4 % 4 == 0
  {
    var q, r := (x + 3) / 4, (x + 3) % 4;
    assert x + 3 == q * 4 + r;
  }

  /** The cursor after the first n fields. */
  function CursorAfter(order: seq<bool>, n: nat): nat
    requires n <= |order|
    decreases n, 0
  {
    if n == 0 then 0 else FieldOffset(order, n - 1) + FieldWidth(order[n - 1])
  }

  function FieldOffset(order: seq<bool>, k: nat): nat
    requires k < |order|
    decreases k, 1
  {
    NextMultiple(CursorAfter(order, k), order[k])
  }

  lemma OffsetBounds(order: seq<bool>, k: nat)
    requires k < |order|
    ensures CursorAfter(order, k) <= FieldOffset(order, k) < CursorAfter(order, k) + FieldWidth(order[k])
    ensures Aligned(FieldOffset(order, k), order[k])
    ensures CursorAfter(order, k + 1) == FieldOffset(order, k) + FieldWidth(order[k])
  {
  }

  method PackedSize(order: seq<bool>) returns (cursor: nat)
    ensures cursor == CursorAfter(order, |order|)
  {
    cursor := 0;
    for k := 0 to |order|
      invariant cursor == CursorAfter(order, k)
    {
      cursor := NextMultiple(cursor, order[k]) + FieldWidth(order[k]);
    }
  }

  /** How many of the first n fields are of this kind: the index of field n among its kind. */
  function KindIndex(order: seq<bool>, storage: bool, n: nat): (r: nat)
    requires n <= |order|
    ensures r <= n
  {
    if n == 0 then 0 else KindIndex(order, storage, n - 1) + if order[n - 1] == storage then 1 else 0
  }

  lemma {:induction false} KindIndexGrows(order: seq<bool>, storage: bool, a: nat, b: nat)
    requires a <= b <= |order|
    ensures KindIndex(order, storage, a) <= KindIndex(order, storage, b)
    decreases b
  {
    if a < b { KindIndexGrows(order, storage, a, b - 1); }
  }

  lemma {:induction false} CursorGrows(order: seq<bool>, a: nat, b: nat)
    requires a <= b <= |order|
    ensures CursorAfter(order, a) <= CursorAfter(order, b)
    decreases b
  {
    if a < b {
      OffsetBounds(order, b - 1);
      CursorGrows(order, a, b - 1);
    }
  }

  /** Fields are aligned, one after another, inside the packed size. */
  lemma FieldsDisjoint(order: seq<bool>, a: nat, b: nat)
    requires a < b < |order|
    ensures Aligned(FieldOffset(order, a), order[a]) && Aligned(FieldOffset(order, b), order[b])
    ensures FieldOffset(order, a) + FieldWidth(order[a]) <= FieldOffset(order, b)
    ensures FieldOffset(order, b) + FieldWidth(order[b]) <= CursorAfter(order, |order|)
  {
    OffsetBounds(order, a);
    OffsetBounds(order, b);
    CursorGrows(order, a + 1, b);
    CursorGrows(order, b + 1, |order|);
  }

  /** The number field k holds: its global, or its variable as a 32-bit word. */
  function FieldValue(order: seq<bool>, globals: seq<nat>, vars: seq<int>, k: nat): nat
    requires k < |order|
    requires |globals| == KindIndex(order, true, |order|) && |vars| == KindIndex(order, false, |order|)
  {
    KindIndexGrows(order, order[k], k + 1, |order|);
    if order[k] then globals[KindIndex(order, true, k)] else vars[KindIndex(order, false, k)] % 0x1_0000_0000
  }

  predicate InField(order: seq<bool>, n: nat, i: int)
    requires n <= |order|
  {
    exists k :: 0 <= k < n && FieldOffset(order, k) <= i < FieldOffset(order, k) + FieldWidth(order[k])
  }

  /** The first n fields hold their values, and what lies between them is zero. */
  ghost predicate PackedTo(bytes: seq<Byte>, order: seq<bool>, globals: seq<nat>, vars: seq<int>, n: nat)
    requires n <= |order|
    requires |globals| == KindIndex(order, true, |order|) && |vars| == KindIndex(order, false, |order|)
  {
    && CursorAfter(order, n) <= |bytes|
    && (forall k :: 0 <= k < n ==> HoldsField(bytes, order, globals, vars, k))
    && (forall i :: 0 <= i < CursorAfter(order, n) && !InField(order, n, i) ==> bytes[i] == 0)
  }

  ghost predicate HoldsField(bytes: seq<Byte>, order: seq<bool>, globals: seq<nat>, vars: seq<int>, k: nat)
    requires k < |order|
    requires |globals| == KindIndex(order, true, |order|) && |vars| == KindIndex(order, false, |order|)
  {
    var offset, width := FieldOffset(order, k), FieldWidth(order[k]);
    offset + width <= |bytes| && bytes[offset..offset + width]
      == FieldBytes(FieldValue(order, globals, vars, k), order[k])
  }

  datatype PackResult = Packed(size: nat) | AbiMismatch | TooSmall

  method Pack(order: seq<bool>, dst: array<Byte>, globals: seq<nat>, vars: seq<int>) returns (r: PackResult)
    requires forall i :: 0 <= i < |globals| ==> globals[i] < 0x1_0000_0000_0000_0000
    modifies dst
    ensures r.AbiMismatch? <==>
      |globals| != KindIndex(order, true, |order|)
      || |vars| != KindIndex(order, false, |order|)
    ensures r.TooSmall? <==> !r.AbiMismatch? && dst.Length < CursorAfter(order, |order|)
    ensures !r.Packed? ==> dst[..] == old(dst[..])
    ensures r.Packed? ==>
      && r.size == CursorAfter(order, |order|)
      && PackedTo(dst[..], order, globals, vars, |order|)
      && dst[r.size..] == old(dst[..])[r.size..]
  {
    var size := PackedSize(order);
    var wantGlobals := CountKind(order, true);
    var wantVars := CountKind(order, false);
    if |globals| != wantGlobals || |vars| != wantVars { return AbiMismatch; }
    if dst.Length < size { return TooSmall; }
    ghost var before := dst[..];
    Clear(dst, size);
    var cursor, global, scalar := 0, 0, 0;
    for k := 0 to |order|
      invariant cursor == CursorAfter(order, k) && global == KindIndex(order, true, k)
        && scalar == KindIndex(order, false, k)
      invariant PackedTo(dst[..], order, globals, vars, k)
      invariant forall i :: cursor <= i < size ==> dst[i] == 0
      invariant dst[size..] == before[size..]
    {
      CursorGrows(order, k + 1, |order|);
      cursor, global, scalar := PackField(order, dst, globals, vars, k, cursor, global, scalar);
    }
    r := Packed(cursor);
  }

  /** One turn of the packing loop. */
  method PackField(order: seq<bool>, dst: array<Byte>, globals: seq<nat>, vars: seq<int>, k: nat, cursor0: nat,
      global0: nat, scalar0: nat)
    returns (cursor: nat, global: nat, scalar: nat)
    requires k < |order| && |globals| == KindIndex(order, true, |order|) && |vars| == KindIndex(order, false, |order|)
    requires cursor0 == CursorAfter(order, k) && global0 == KindIndex(order, true, k)
      && scalar0 == KindIndex(order, false, k)
    requires CursorAfter(order, k + 1) <= dst.Length && PackedTo(dst[..], order, globals, vars, k)
    requires forall i :: cursor0 <= i < CursorAfter(order, k + 1) ==> dst[i] == 0
    modifies dst
    ensures cursor == CursorAfter(order, k + 1) && global == KindIndex(order, true, k + 1)
      && scalar == KindIndex(order, false, k + 1)
    ensures PackedTo(dst[..], order, globals, vars, k + 1)
    ensures forall i :: cursor <= i < dst.Length ==> dst[i] == old(dst[i])
  {
    cursor, global, scalar := cursor0, global0, scalar0;
    KindIndexGrows(order, order[k], k + 1, |order|);
    OffsetBounds(order, k);
    ghost var was := dst[..];
    if order[k] {
      cursor := NextMultiple(cursor, true);
      CopyInto(dst, cursor, FieldBytes(globals[global], true));
      global, cursor := global + 1, cursor + 8;
    } else {
      cursor := NextMultiple(cursor, false);
      CopyInto(dst, cursor, FieldBytes(vars[scalar] % 0x1_0000_0000, false));
      scalar, cursor := scalar + 1, cursor + 4;
    }
    PackedNext(was, dst[..], order, globals, vars, k);
  }

  method CountKind(order: seq<bool>, storage: bool) returns (n: nat)
    ensures n == KindIndex(order, storage, |order|)
  {
    n := 0;
    for k := 0 to |order|
      invariant n == KindIndex(order, storage, k)
    {
      if order[k] == storage { n := n + 1; }
    }
  }

  method Clear(dst: array<Byte>, size: nat)
    requires size <= dst.Length
    modifies dst
    ensures forall i :: 0 <= i < dst.Length ==> dst[i] == if i < size then 0 else old(dst[i])
  {
    for k := 0 to size
      invariant forall i :: 0 <= i < dst.Length ==> dst[i] == if i < k then 0 else old(dst[i])
    {
      dst[k] := 0;
    }
  }

  lemma InFieldGrows(order: seq<bool>, n: nat, i: int)
    requires n < |order|
    ensures InField(order, n, i) ==> InField(order, n + 1, i)
  {
  }

  function FieldBytes(v: nat, storage: bool): (r: seq<Byte>)
    ensures |r| == FieldWidth(storage)
  {
    LeBytes(v, FieldWidth(storage))
  }

  /** Writing field n into zeroed bytes extends the packing by it. */
  lemma PackedNext(was: seq<Byte>, now: seq<Byte>, order: seq<bool>, globals: seq<nat>, vars: seq<int>, n: nat)
    requires n < |order| && |was| == |now| && CursorAfter(order, n + 1) <= |now|
    requires |globals| == KindIndex(order, true, |order|) && |vars| == KindIndex(order, false, |order|)
    requires PackedTo(was, order, globals, vars, n)
    requires forall i :: CursorAfter(order, n) <= i < FieldOffset(order, n) ==> was[i] == 0
    requires forall i :: 0 <= i < FieldOffset(order, n) ==> now[i] == was[i]
    requires HoldsField(now, order, globals, vars, n)
    ensures PackedTo(now, order, globals, vars, n + 1)
  {
    OffsetBounds(order, n);
    forall k | 0 <= k < n + 1 ensures HoldsField(now, order, globals, vars, k) {
      if k < n {
        assert HoldsField(was, order, globals, vars, k);
        FieldsDisjoint(order, k, n);
        var offset, width := FieldOffset(order, k), FieldWidth(order[k]);
        assert now[offset..offset + width] == was[offset..offset + width];
      }
    }
    forall i | 0 <= i < CursorAfter(order, n + 1) && !InField(order, n + 1, i) ensures now[i] == 0 {
      InFieldGrows(order, n, i);
      assert i < FieldOffset(order, n);
    }
  }

  lemma FieldFits(order: seq<bool>, globals: seq<nat>, vars: seq<int>, k: nat)
    requires |globals| == KindIndex(order, true, |order|) && |vars| == KindIndex(order, false, |order|)
    requires k < |order| && forall i :: 0 <= i < |globals| ==> globals[i] < 0x1_0000_0000_0000_0000
    ensures FieldValue(order, globals, vars, k) < Range(FieldWidth(order[k]))
  {
    Ranges();
    KindIndexGrows(order, order[k], k + 1, |order|);
  }

  /** Reading a packed field back gives the global, or the variable modulo 2^32. */
  lemma FieldReadsBack(bytes: seq<Byte>, order: seq<bool>, globals: seq<nat>, vars: seq<int>, k: nat)
    requires |globals| == KindIndex(order, true, |order|) && |vars| == KindIndex(order, false, |order|)
    requires forall i :: 0 <= i < |globals| ==> globals[i] < 0x1_0000_0000_0000_0000
    requires PackedTo(bytes, order, globals, vars, |order|) && k < |order|
    ensures var offset := FieldOffset(order, k); var width := FieldWidth(order[k]);
      && offset + width <= |bytes|
      && FromLe(bytes[offset..offset + width]) == FieldValue(order, globals, vars, k)
  {
    HeldReadsBack(bytes, order, globals, vars, k);
  }

  lemma HeldReadsBack(bytes: seq<Byte>, order: seq<bool>, globals: seq<nat>, vars: seq<int>, k: nat)
    requires |globals| == KindIndex(order, true, |order|) && |vars| == KindIndex(order, false, |order|)
    requires forall i :: 0 <= i < |globals| ==> globals[i] < 0x1_0000_0000_0000_0000
    requires k < |order| && HoldsField(bytes, order, globals, vars, k)
    ensures var offset := FieldOffset(order, k); var width := FieldWidth(order[k]);
      && offset + width <= |bytes|
      && FromLe(bytes[offset..offset + width]) == FieldValue(order, globals, vars, k)
  {
    FieldFits(order, globals, vars, k);
    BytesReadBack(bytes, FieldOffset(order, k), FieldValue(order, globals, vars, k), order[k]);
  }

  lemma BytesReadBack(bytes: seq<Byte>, offset: nat, v: nat, storage: bool)
    requires v < Range(FieldWidth(storage)) && offset + FieldWidth(storage) <= |bytes|
    requires bytes[offset..offset + FieldWidth(storage)] == FieldBytes(v, storage)
    ensures FromLe(bytes[offset..offset + FieldWidth(storage)]) == v
  {
    FitsRoundTrip(v, FieldWidth(storage));
  }

  /** A global takes eight bytes at a multiple of eight, and they read back as the global of its place among globals. */
  lemma GlobalReadsBack(bytes: seq<Byte>, order: seq<bool>, globals: seq<nat>, vars: seq<int>, k: nat)
    requires |globals| == KindIndex(order, true, |order|) && |vars| == KindIndex(order, false, |order|)
    requires forall i :: 0 <= i < |globals| ==> globals[i] < 0x1_0000_0000_0000_0000
    requires PackedTo(bytes, order, globals, vars, |order|) && k < |order| && order[k]
    ensures var offset := FieldOffset(order, k);
      && offset % 8 == 0 && offset + 8 <= |bytes| && KindIndex(order, true, k) < |globals|
      && FromLe(bytes[offset..offset + 8]) == globals[KindIndex(order, true, k)]
  {
    OffsetBounds(order, k);
    KindIndexGrows(order, true, k + 1, |order|);
    FieldReadsBack(bytes, order, globals, vars, k);
  }

  /** A variable takes four bytes at a multiple of four, and they read back as that variable modulo 2^32. */
  lemma VariableReadsBack(bytes: seq<Byte>, order: seq<bool>, globals: seq<nat>, vars: seq<int>, k: nat)
    requires |globals| == KindIndex(order, true, |order|) && |vars| == KindIndex(order, false, |order|)
    requires forall i :: 0 <= i < |globals| ==> globals[i] < 0x1_0000_0000_0000_0000
    requires PackedTo(bytes, order, globals, vars, |order|) && k < |order| && !order[k]
    ensures var offset := FieldOffset(order, k);
      && offset % 4 == 0 && offset + 4 <= |bytes| && KindIndex(order, false, k) < |vars|
      && FromLe(bytes[offset..offset + 4]) == vars[KindIndex(order, false, k)] % 0x1_0000_0000
  {
    OffsetBounds(order, k);
    KindIndexGrows(order, false, k + 1, |order|);
    FieldReadsBack(bytes, order, globals, vars, k);
  }

  /** A field starts at the first aligned place behind the one before it. */
  lemma FieldIsNext(order: seq<bool>, k: nat)
    requires k < |order|
    ensures var start, width := FieldOffset(order, k), if order[k] then 8 else 4;
      var behind := if k == 0 then 0 else FieldOffset(order, k - 1) + if order[k - 1] then 8 else 4;
      behind <= start < behind + width && start % width == 0
    ensures CursorAfter(order, |order|)
      == if order == [] then 0 else FieldOffset(order, |order| - 1) + if order[|order| - 1] then 8 else 4
  {
    OffsetBounds(order, k);
  }

  lemma FitsRoundTrip(v: nat, width: nat)
    requires v < Range(width)
    ensures FromLe(LeBytes(v, width)) == v
  {
    LeRoundTrip(v, width);
    assert Mul(0, Range(width)) == 0;
    DivMod(0, v, Range(width));
  }

  lemma Ranges()
    ensures Range(4) == 0x1_0000_0000 && Range(8) == 0x1_0000_0000_0000_0000
  {
    assert Range(2) == 0x1_0000;
    assert Range(6) == 0x1_0000_0000_0000;
  }
}
