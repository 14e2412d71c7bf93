/** Compute dispatch planning in unsigned 32-bit arithmetic, with its wrap-around written out. */
module ComputeDispatch {
  import opened Arithmetic
  import opened Common

  const MAX_THREADS_PER_GROUP: nat := 1024
  const MAX_GROUP_SIZE_Z: nat := 64
  const MAX_GROUPS: nat := 65535
  const MAX_SHADER_RESOURCES: nat := 16
  const MAX_UNORDERED_ACCESS: nat := 8
  const INVALID_SLOT: nat := 0xFFFF_FFFF

  type uint32 = x: nat | x < UINT32_SIZE

  datatype Extent = Extent(x: uint32, y: uint32, z: uint32)

  const NO_GROUPS: Extent := Extent(0, 0, 0)

  function Wrap32(x: nat): uint32 {
    x % UINT32_SIZE
  }

  /** The true number of threads in a group; the source computes it modulo 2^64. */
  function Threads(size: Extent): nat {
    size.x * size.y * size.z
  }

  predicate GroupSizeIsValid(size: Extent) {
    && size.x != 0 && size.y != 0 && size.z != 0
    && size.z <= MAX_GROUP_SIZE_Z
    && Threads(size) % UINT64_SIZE <= MAX_THREADS_PER_GROUP
  }

  predicate GroupsAreValid(groups: Extent) {
    && groups.x != 0 && groups.y != 0 && groups.z != 0
    && groups.x <= MAX_GROUPS && groups.y <= MAX_GROUPS && groups.z <= MAX_GROUPS
  }

  function AxisGroups(n: uint32, tile: uint32): uint32
    requires tile > 0
  {
    Wrap32(n + tile - 1) / tile
  }

  function DispatchGroups(extent: Extent, size: Extent): Extent {
    if !GroupSizeIsValid(size) then NO_GROUPS
    else if extent.x == 0 || extent.y == 0 || extent.z == 0 then NO_GROUPS
    else
      var groups := Extent(AxisGroups(extent.x, size.x), AxisGroups(extent.y, size.y), AxisGroups(extent.z, size.z));
      if GroupsAreValid(groups) then groups else NO_GROUPS
  }

  // ---------------------------------------------------------------------------------------
  // Exactness
  // ---------------------------------------------------------------------------------------

  /** `g` groups of `tile` threads are what `n` threads need: enough, with no group idle. */
  predicate Covers(g: nat, tile: nat, n: nat) {
    g * tile >= n && (g > 0 ==> (g - 1) * tile < n)
  }

  /** The true ceiling of `n / tile`. */
  function CeilingOf(n: nat, tile: nat): (g: nat)
    requires tile > 0
    ensures Covers(g, tile, n)
  {
    DivisionIdentity(n + tile - 1, tile);
    var g := (n + tile - 1) / tile;
    assert (g - 1) * tile == g * tile - tile;
    g
  }

  lemma CeilingIsUnique(g: nat, h: nat, tile: nat, n: nat)
    requires tile > 0 && Covers(g, tile, n) && Covers(h, tile, n)
    ensures g == h
  {
    if g < h {
      MulMonotone(g, h - 1, tile);
    } else if h < g {
      MulMonotone(h, g - 1, tile);
    }
  }

  /** On one axis, the wrapped sum either gives the true ceiling or divides to zero. */
  lemma AxisIsCeilingOrZero(n: uint32, tile: uint32)
    requires tile > 0
    ensures n + tile <= UINT32_SIZE ==> AxisGroups(n, tile) == CeilingOf(n, tile)
    ensures n + tile > UINT32_SIZE ==> AxisGroups(n, tile) == 0
  {
    if n + tile > UINT32_SIZE {
      assert Wrap32(n + tile - 1) == n + tile - 1 - UINT32_SIZE < tile;
      UniqueQuotient(Wrap32(n + tile - 1), tile, 0, Wrap32(n + tile - 1));
    } else {
      assert Wrap32(n + tile - 1) == n + tile - 1;
    }
  }

  /** With a legal tile the sum wraps only when the true ceiling is past the limit. */
  lemma AxisIsExact(n: uint32, tile: uint32)
    requires 0 < tile <= MAX_THREADS_PER_GROUP && n > 0
    ensures AxisGroups(n, tile) == CeilingOf(n, tile)
            || (AxisGroups(n, tile) == 0 && CeilingOf(n, tile) > MAX_GROUPS)
    ensures CeilingOf(n, tile) > 0
  {
    AxisIsCeilingOrZero(n, tile);
    var g := CeilingOf(n, tile);
    MulMonotone(tile, MAX_THREADS_PER_GROUP, MAX_GROUPS);
    if n + tile > UINT32_SIZE && g <= MAX_GROUPS {
      MulMonotone(g, MAX_GROUPS, tile);
    }
  }

  predicate LegalTile(size: Extent) {
    size.x > 0 && size.y > 0 && 0 < size.z <= 64 && Threads(size) <= 1024
  }

  lemma LegalTileIsSmall(size: Extent)
    requires LegalTile(size)
    ensures size.x <= MAX_THREADS_PER_GROUP && size.y <= MAX_THREADS_PER_GROUP && size.z <= MAX_THREADS_PER_GROUP
  {
    var x: int, y: int, z: int := size.x, size.y, size.z;
    var xy := x * y;
    MulAtLeast(y, x);
    MulAtLeast(x, y);
    assert y * x == xy;
    MulAtLeast(z, xy);
    assert z * xy == Threads(size);
  }

  /** More threads than 64 bits can count, which the wrapped product reports as few. */
  predicate WrapsToSmall(size: Extent) {
    && size.x > 0 && size.y > 0 && 0 < size.z <= MAX_GROUP_SIZE_Z
    && Threads(size) >= UINT64_SIZE && Threads(size) % UINT64_SIZE <= MAX_THREADS_PER_GROUP
  }

  /** A legal tile always passes the test, and an illegal one only when its true product wraps to something
      small; so the test is exact whenever the product fits 64 bits. */
  lemma GroupSizeTestIsExact(size: Extent)
    ensures GroupSizeIsValid(size) <==> LegalTile(size) || WrapsToSmall(size)
    ensures !(LegalTile(size) && WrapsToSmall(size))
    ensures Threads(size) < UINT64_SIZE ==> (GroupSizeIsValid(size) <==> LegalTile(size))
  {
    if Threads(size) < UINT64_SIZE {
      assert Threads(size) % UINT64_SIZE == Threads(size);
    }
  }

  /** Such a tile exists: its 2^64 threads are counted as none, and one group of it is dispatched. */
  lemma WrappedTileIsAccepted()
    ensures var size := Extent(0x2000_0000, 0x2000_0000, 64);
            && WrapsToSmall(size)
            && GroupSizeIsValid(size) && !LegalTile(size)
            && DispatchGroups(Extent(1, 1, 1), size) == Extent(1, 1, 1)
  {
    assert Threads(Extent(0x2000_0000, 0x2000_0000, 64)) == UINT64_SIZE;
    UniqueQuotient(0x2000_0000, 0x2000_0000, 1, 0);
    UniqueQuotient(64, 64, 1, 0);
  }

  function Ceilings(extent: Extent, size: Extent): (nat, nat, nat)
    requires size.x > 0 && size.y > 0 && size.z > 0
  {
    (CeilingOf(extent.x, size.x), CeilingOf(extent.y, size.y), CeilingOf(extent.z, size.z))
  }

  predicate IsPlannable(extent: Extent, size: Extent) {
    && LegalTile(size)
    && extent.x > 0 && extent.y > 0 && extent.z > 0
    && var (x, y, z) := Ceilings(extent, size);
       x <= 65535 && y <= 65535 && z <= 65535
  }

  /** The plan is the true ceiling on every axis, and empty when the tile is illegal, an extent is zero or
      a true ceiling is past the limit. */
  predicate IsTruePlan(groups: Extent, extent: Extent, size: Extent) {
    if IsPlannable(extent, size) then (groups.x as nat, groups.y as nat, groups.z as nat) == Ceilings(extent, size)
    else groups == Extent(0, 0, 0)
  }

  /** One axis on which nothing wraps and the limit holds. */
  predicate AxisFits(n: uint32, tile: uint32)
    requires tile > 0
  {
    n > 0 && n + tile <= UINT32_SIZE && CeilingOf(n, tile) <= MAX_GROUPS
  }

  lemma AxisFitsExactly(n: uint32, tile: uint32)
    requires tile > 0 && n > 0
    ensures 0 < AxisGroups(n, tile) <= MAX_GROUPS <==> AxisFits(n, tile)
    ensures AxisFits(n, tile) ==> AxisGroups(n, tile) == CeilingOf(n, tile)
  {
    AxisIsCeilingOrZero(n, tile);
  }

  /** The plan is true for every extent and tile, except when the tile's 64-bit product wraps to something
      small and every axis fits; 32-bit wrap-around on an axis never shows. */
  lemma PlanIsExact(extent: Extent, size: Extent)
    ensures IsTruePlan(DispatchGroups(extent, size), extent, size)
            <==> !(WrapsToSmall(size)
                   && AxisFits(extent.x, size.x) && AxisFits(extent.y, size.y) && AxisFits(extent.z, size.z))
  {
    GroupSizeTestIsExact(size);
    hide Threads, CeilingOf, AxisGroups, WrapsToSmall, AxisFits;
    if LegalTile(size) && extent.x > 0 && extent.y > 0 && extent.z > 0 {
      LegalTileIsSmall(size);
      AxisIsExact(extent.x, size.x);
      AxisIsExact(extent.y, size.y);
      AxisIsExact(extent.z, size.z);
    } else if WrapsToSmall(size) {
      WrappedPlan(extent, size);
    }
  }

  lemma WrappedPlan(extent: Extent, size: Extent)
    requires WrapsToSmall(size)
    ensures DispatchGroups(extent, size) != NO_GROUPS
            <==> AxisFits(extent.x, size.x) && AxisFits(extent.y, size.y) && AxisFits(extent.z, size.z)
  {
    GroupSizeTestIsExact(size);
    hide Threads, CeilingOf, AxisGroups;
    if extent.x > 0 && extent.y > 0 && extent.z > 0 {
      AxisFitsExactly(extent.x, size.x);
      AxisFitsExactly(extent.y, size.y);
      AxisFitsExactly(extent.z, size.z);
    }
  }

  /** The plan for a plannable extent covers it with no idle group, and no other group counts do. */
  lemma PlanIsTheOnlyCover(extent: Extent, size: Extent, x: nat, y: nat, z: nat)
    requires IsPlannable(extent, size)
    ensures Covers(x, size.x, extent.x) && Covers(y, size.y, extent.y) && Covers(z, size.z, extent.z)
            <==> var groups := DispatchGroups(extent, size); groups.x == x && groups.y == y && groups.z == z
  {
    PlanIsExact(extent, size);
    GroupSizeTestIsExact(size);
    hide Threads, WrapsToSmall, AxisFits, DispatchGroups, Covers;
    if Covers(x, size.x, extent.x) && Covers(y, size.y, extent.y) && Covers(z, size.z, extent.z) {
      CeilingIsUnique(x, CeilingOf(extent.x, size.x), size.x, extent.x);
      CeilingIsUnique(y, CeilingOf(extent.y, size.y), size.y, extent.y);
      CeilingIsUnique(z, CeilingOf(extent.z, size.z), size.z, extent.z);
    }
  }

  // ---------------------------------------------------------------------------------------
  // Descriptor slots
  // ---------------------------------------------------------------------------------------

  datatype BindingLayout = BindingLayout(shaderResources: uint32, unorderedAccess: uint32)

  predicate LayoutFits(layout: BindingLayout) {
    layout.shaderResources <= MAX_SHADER_RESOURCES && layout.unorderedAccess <= MAX_UNORDERED_ACCESS
  }

  function DescriptorCount(layout: BindingLayout): uint32 {
    Wrap32(layout.shaderResources + layout.unorderedAccess)
  }

  function ShaderResourceSlot(layout: BindingLayout, index: uint32): uint32 {
    if index >= layout.shaderResources then INVALID_SLOT else index
  }

  function UnorderedAccessSlot(layout: BindingLayout, index: uint32): uint32 {
    if index >= layout.unorderedAccess then INVALID_SLOT else Wrap32(layout.shaderResources + index)
  }

  /** Every descriptor slot belongs to a view, and every other index gets no slot. */
  lemma SlotsAreUsed(layout: BindingLayout, slot: uint32)
    requires layout.shaderResources <= 16 && layout.unorderedAccess <= 8 && slot != 0xFFFF_FFFF
    ensures slot < DescriptorCount(layout) <==>
              || (exists i: uint32 :: ShaderResourceSlot(layout, i) == slot)
              || (exists j: uint32 :: UnorderedAccessSlot(layout, j) == slot)
  {
    if slot < layout.shaderResources {
      assert ShaderResourceSlot(layout, slot) == slot;
    } else if slot < DescriptorCount(layout) {
      assert UnorderedAccessSlot(layout, slot - layout.shaderResources) == slot;
    }
  }

  lemma SlotsFit(layout: BindingLayout, index: uint32)
    requires LayoutFits(layout)
    ensures index < layout.unorderedAccess ==>
              Wrap32(layout.shaderResources + index) == layout.shaderResources + index < INVALID_SLOT
  {
  }

  /** Shader resources come first, then unordered access views, each in the order of their indices. */
  lemma SlotsAreOrdered(layout: BindingLayout, i: uint32, i': uint32)
    requires layout.shaderResources <= 16 && layout.unorderedAccess <= 8
    ensures i < i' < layout.shaderResources ==> ShaderResourceSlot(layout, i) < ShaderResourceSlot(layout, i')
    ensures i < i' < layout.unorderedAccess ==> UnorderedAccessSlot(layout, i) < UnorderedAccessSlot(layout, i')
    ensures i < layout.shaderResources && i' < layout.unorderedAccess ==>
              ShaderResourceSlot(layout, i) < UnorderedAccessSlot(layout, i')
  {
    SlotsFit(layout, i);
    SlotsFit(layout, i');
    hide Wrap32;
  }

  /** No descriptor slot serves two views. */
  lemma SlotsAreDistinct(layout: BindingLayout, i: uint32, i': uint32)
    requires layout.shaderResources <= 16 && layout.unorderedAccess <= 8
    ensures ShaderResourceSlot(layout, i) == ShaderResourceSlot(layout, i') != INVALID_SLOT ==> i == i'
    ensures UnorderedAccessSlot(layout, i) == UnorderedAccessSlot(layout, i') != INVALID_SLOT ==> i == i'
    ensures ShaderResourceSlot(layout, i) == UnorderedAccessSlot(layout, i') ==>
              ShaderResourceSlot(layout, i) == INVALID_SLOT
  {
    SlotsFit(layout, i);
    SlotsFit(layout, i');
    hide Wrap32;
  }
}
