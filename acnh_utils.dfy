/** The inventory layer of `src/acnh_utils.rs`: the 40 inventory slots of
    8 bytes each from address `0xAFB1E6E0`, written through `write_dword`
    (an id word, then a count or recipe word) and read back as one
    320-byte block that is decoded little-endian. */
module AcnhUtils {
  import opened Seqs
  import opened Bytes
  import opened Text
  import opened Usb
  import opened SwitchUtils
  import opened AcnhItems

  const INVENTORY_OFFSET: u32 := 0xAFB1_E6E0
  const SLOT_COUNT: nat := 40
  const SLOT_SIZE: nat := 8
  const INVENTORY_SIZE: nat := 320
  /** The first word of a slot holding a recipe card. */
  const RECIPE_MARKER: u32 := 0x16A2
  /** The id `clear_inventory` fills every slot with. */
  const EMPTY_ITEM_ID: u32 := 0xFFFE

  /** `INVENTORY_OFFSET + slot * 8 + 4` does not overflow a `u32` (an
      overflow panics). */
  predicate SlotFits(slot: nat)
  {
    INVENTORY_OFFSET + SLOT_SIZE * slot + 4 < U32_LIMIT
  }

  /** The address of a slot's first word. */
  function SlotAddress(slot: nat): (a: u32)
    requires SlotFits(slot)
    ensures a == INVENTORY_OFFSET + 8 * slot
  {
    INVENTORY_OFFSET + SLOT_SIZE * slot
  }

  lemma InventorySlotsFit(slot: nat)
    requires slot < SLOT_COUNT
    ensures SlotFits(slot)
  {
  }

  // ---------------------------------------------------------------------
  // Writes

  /** One `write_dword(address, value)` an operation means to make. */
  datatype Poke = Poke(address: u32, value: u32)

  /** The two words a slot is given: an item's id and its count less one,
      or the recipe marker and the recipe's id. */
  function SlotWords(kind: ItemType, id: u32, count: u32): (u32, u32)
    requires kind == ItemKind ==> count >= 1
  {
    match kind
    case ItemKind => (id, count - 1)
    case RecipeKind => (RECIPE_MARKER, id)
  }

  /** The writes of `set_inventory_item` (kind `ItemKind`) or
      `set_inventory_recipe` (kind `RecipeKind`, `count` unused). */
  function SlotPokes(slot: nat, kind: ItemType, id: u32, count: u32): seq<Poke>
    requires SlotFits(slot) && (kind == ItemKind ==> count >= 1)
  {
    var words := SlotWords(kind, id, count);
    [Poke(SlotAddress(slot), words.0), Poke(SlotAddress(slot) + 4, words.1)]
  }

  /** `set_inventory_item` writes the id at the slot and `count - 1` four
      bytes on; `set_inventory_recipe` writes the marker then the recipe id,
      whatever count it is given. */
  lemma SlotPokesContents(slot: nat, id: u32, count: u32, otherCount: u32)
    requires SlotFits(slot) && count >= 1
    ensures SlotPokes(slot, ItemKind, id, count)
              == [Poke(INVENTORY_OFFSET + 8 * slot, id), Poke(INVENTORY_OFFSET + 8 * slot + 4, count - 1)]
    ensures SlotPokes(slot, RecipeKind, id, count)
              == [Poke(INVENTORY_OFFSET + 8 * slot, RECIPE_MARKER), Poke(INVENTORY_OFFSET + 8 * slot + 4, id)]
    ensures SlotPokes(slot, RecipeKind, id, count) == SlotPokes(slot, RecipeKind, id, otherCount)
  {
  }

  /** The writes of a fill loop over slots `0..n`, in ascending order. */
  function FillPokes(kind: ItemType, id: u32, count: u32, n: nat): (r: seq<Poke>)
    requires n <= SLOT_COUNT && (kind == ItemKind ==> count >= 1)
    ensures |r| == 2 * n
  {
    if n == 0 then [] else FillPokes(kind, id, count, n - 1) + SlotPokes(n - 1, kind, id, count)
  }

  /** The fill loops make two writes per slot, in ascending address order,
      four bytes apart: write `k` is at `INVENTORY_OFFSET + 4 * k`, the even
      ones carrying the slot's first word and the odd ones its second. */
  lemma {:induction false} FillPokesLayout(kind: ItemType, id: u32, count: u32, n: nat)
    requires n <= SLOT_COUNT && (kind == ItemKind ==> count >= 1)
    ensures forall k | 0 <= k < 2 * n ::
              && FillPokes(kind, id, count, n)[k].address == INVENTORY_OFFSET + 4 * k
              && FillPokes(kind, id, count, n)[k].value
                   == if k % 2 == 0 then SlotWords(kind, id, count).0 else SlotWords(kind, id, count).1
  {
    if n > 0 {
      FillPokesLayout(kind, id, count, n - 1);
      var before, last := FillPokes(kind, id, count, n - 1), SlotPokes(n - 1, kind, id, count);
      forall k | 2 * (n - 1) <= k < 2 * n
        ensures (before + last)[k] == last[k - 2 * (n - 1)]
      {
      }
    }
  }

  /** After `clear_inventory` every slot's first word is `0xfffe` and its
      second word is 0. */
  lemma ClearedLayout()
    ensures forall slot | 0 <= slot < SLOT_COUNT ::
              && FillPokes(ItemKind, EMPTY_ITEM_ID, 1, SLOT_COUNT)[2 * slot] == Poke(INVENTORY_OFFSET + 8 * slot, EMPTY_ITEM_ID)
              && FillPokes(ItemKind, EMPTY_ITEM_ID, 1, SLOT_COUNT)[2 * slot + 1] == Poke(INVENTORY_OFFSET + 8 * slot + 4, 0)
  {
    FillPokesLayout(ItemKind, EMPTY_ITEM_ID, 1, SLOT_COUNT);
    forall slot | 0 <= slot < SLOT_COUNT
      ensures (2 * slot) % 2 == 0 && (2 * slot + 1) % 2 == 1
    {
    }
  }

  /** `log` records the `write_dword` calls of an operation that meant to
      make the writes `plan`, one after the other, stopping at the first
      one that fails (the `?`): the calls made are a prefix of the plan,
      all but the last succeeded, and `s` is the outcome. */
  ghost predicate Performed(log: seq<DwordWrite>, plan: seq<Poke>, s: Status)
  {
    && |log| <= |plan|
    && (forall i | 0 <= i < |log| :: log[i].address == plan[i].address && log[i].value == plan[i].value)
    && (forall i | 0 <= i < |log| - 1 :: log[i].status.Ok?)
    && (s.Ok? <==> |log| == |plan| && forall i | 0 <= i < |log| :: log[i].status.Ok?)
    && (s.Err? ==> |log| > 0 && log[|log| - 1].status == s)
  }

  /** Two runs back to back, the first one complete. */
  lemma PerformedAppend(log1: seq<DwordWrite>, plan1: seq<Poke>, log2: seq<DwordWrite>, plan2: seq<Poke>, s: Status)
    requires Performed(log1, plan1, Ok) && Performed(log2, plan2, s)
    ensures Performed(log1 + log2, plan1 + plan2, s)
  {
    var log, plan := log1 + log2, plan1 + plan2;
    assert |log1| == |plan1|;
    forall i | 0 <= i < |log1| ensures log[i] == log1[i] && plan[i] == plan1[i] {
    }
    forall i | |log1| <= i < |log| ensures log[i] == log2[i - |log1|] && plan[i] == plan2[i - |log1|] {
    }
    if s.Ok? {
      assert forall i | 0 <= i < |log| :: log[i].status.Ok?;
    } else {
      assert log[|log| - 1] == log2[|log2| - 1];
    }
  }

  /** A run that failed stays failed whatever was planned after it. */
  lemma PerformedStopped(log: seq<DwordWrite>, plan1: seq<Poke>, plan2: seq<Poke>, s: Status)
    requires Performed(log, plan1, s) && s.Err?
    ensures Performed(log, plan1 + plan2, s)
  {
    forall i | 0 <= i < |log| ensures (plan1 + plan2)[i] == plan1[i] {
    }
    if |log| == |plan1 + plan2| {
      assert |plan2| == 0;
      assert !log[|log| - 1].status.Ok?;
    }
  }

  // ---------------------------------------------------------------------
  // Reads

  /** One decoded slot. `count` is the stored count word. */
  datatype InventoryItem = InventoryItem(item: Item, count: u32)

  /** The little-endian word at `offset` of the read buffer. */
  function WordAt(raw: seq<byte>, offset: nat): u32
    requires offset + 4 <= |raw|
  {
    FromLe(raw[offset..offset + 4])
  }

  /** One slot of `get_inventory`: words `a` and `b` looked up in the
      catalog. The marker in `a` makes it one recipe with id `b`; any other
      `a` is the item with that id, `b` times. */
  function DecodeSlot(a: u32, b: u32, catalog: Catalog): (r: InventoryItem)
    reads catalog
    ensures a == RECIPE_MARKER ==> r.item.Recipe? && r.item.recipeId == b && r.count == 1
    ensures a != RECIPE_MARKER ==> r.item.Item? && r.item.itemId == a && r.count == b
  {
    if a == RECIPE_MARKER then
      InventoryItem(catalog.GetRecipeById(b).GetOr(Recipe(b, "Unknown", "Unknown")), 1)
    else
      InventoryItem(catalog.GetItemById(a).GetOr(Item(a, "Unknown", "Unknown", "None")), b)
  }

  /** A slot whose first word is the recipe marker is the recipe named by
      its second word, one of it; any other slot is the item named by its
      first word, as many as its second word says. What the catalog lacks
      is an "Unknown" entry carrying the raw id. */
  lemma DecodeSlotClassifies(a: u32, b: u32, catalog: Catalog)
    ensures var e := DecodeSlot(a, b, catalog);
      && (a == RECIPE_MARKER ==> e.item.Recipe? && e.item.recipeId == b && e.count == 1)
      && (a != RECIPE_MARKER ==> e.item.Item? && e.item.itemId == a && e.count == b)
      && (a == RECIPE_MARKER && catalog.GetRecipeById(b).None? ==> e.item == Recipe(b, "Unknown", "Unknown"))
      && (a != RECIPE_MARKER && catalog.GetItemById(a).None? ==> e.item == Item(a, "Unknown", "Unknown", "None"))
      && (a == RECIPE_MARKER && catalog.GetRecipeById(b).Some? ==> e.item == catalog.GetRecipeById(b).value)
      && (a != RECIPE_MARKER && catalog.GetItemById(a).Some? ==> e.item == catalog.GetItemById(a).value)
  {
  }

  /** `get_inventory`'s decoding of the 320-byte buffer: slot `i` from
      bytes `8i..8i+4` and `8i+4..8i+8`. */
  function DecodeInventory(raw: seq<byte>, catalog: Catalog): (r: seq<InventoryItem>)
    requires |raw| == INVENTORY_SIZE
    reads catalog
    ensures |r| == SLOT_COUNT
  {
    seq(SLOT_COUNT, i requires 0 <= i < SLOT_COUNT reads catalog =>
      DecodeSlot(WordAt(raw, SLOT_SIZE * i), WordAt(raw, SLOT_SIZE * i + 4), catalog))
  }

  /** `InventoryItem::to_string`; `display` is the entry's `Display`
      rendering. The text starts with that rendering; a recipe then shows
      `(Recipe)`, an item ` x` and a decimal count, with no leading zero,
      that reads back as the stored count plus one. */
  function ToString(e: InventoryItem, display: Item -> string): (r: string)
    requires e.item.Item? ==> e.count < U32_MAX
    ensures |display(e.item)| < |r| && r[..|display(e.item)|] == display(e.item)
    ensures e.item.Recipe? ==> r[|display(e.item)|..] == "(Recipe)"
    ensures e.item.Item? ==>
              && |display(e.item)| + 2 < |r|
              && r[|display(e.item)|..|display(e.item)| + 2] == " x"
              && ParseDecimal(r[|display(e.item)| + 2..]) == Some(e.count + 1)
              && r[|display(e.item)| + 2] != '0'
  {
    match e.item
    case Item(_, _, _, _) =>
      var shown := display(e.item) + " x" + Decimal(e.count + 1);
      assert shown[|display(e.item)| + 2..] == Decimal(e.count + 1);
      ParseDecimalOfDecimal(e.count + 1);
      shown
    case Recipe(_, _, _) => display(e.item) + "(Recipe)"
  }

  /** The count shown for an item is the count `set_inventory_item` was
      given: it stores `count - 1` and shows the stored word plus one. */
  lemma ShownCountIsWrittenCount(it: Item, count: u32, display: Item -> string)
    requires it.Item? && count >= 1
    ensures var shown := ToString(InventoryItem(it, SlotWords(ItemKind, it.itemId, count).1), display);
      && shown[..|display(it)|] == display(it)
      && shown[|display(it)|..|display(it)| + 2] == " x"
      && ParseDecimal(shown[|display(it)| + 2..]) == Some(count as nat)
  {
    assert SlotWords(ItemKind, it.itemId, count).1 + 1 == count as nat;
  }

  // ---------------------------------------------------------------------
  // Writer and reader agree

  /** A memory of 32-bit words by address, as the writer's words would sit
      if every `write_dword` stored its value at its address; words never
      written read as `fallback`. */
  function Stored(words: map<int, u32>, address: int, fallback: u32): u32
  {
    if address in words then words[address] else fallback
  }

  function Apply(words: map<int, u32>, pokes: seq<Poke>): map<int, u32>
    decreases |pokes|
  {
    if pokes == [] then words else Apply(words[pokes[0].address := pokes[0].value], pokes[1..])
  }

  /** The bytes a 320-byte read at `INVENTORY_OFFSET` gives from such a
      memory: each word least significant byte first. */
  function Image(words: map<int, u32>, fallback: u32): (r: seq<byte>)
    ensures |r| == INVENTORY_SIZE
  {
    seq(INVENTORY_SIZE, j requires 0 <= j < INVENTORY_SIZE =>
      LeBytes(Stored(words, INVENTORY_OFFSET + 4 * (j / 4), fallback))[j % 4])
  }

  /** Writes to other addresses leave a word alone. */
  lemma {:induction false} ApplyElsewhere(words: map<int, u32>, pokes: seq<Poke>, address: int, fallback: u32)
    requires forall k | 0 <= k < |pokes| :: pokes[k].address != address
    ensures Stored(Apply(words, pokes), address, fallback) == Stored(words, address, fallback)
    decreases |pokes|
  {
    if pokes != [] {
      assert forall k | 0 <= k < |pokes[1..]| :: pokes[1..][k] == pokes[k + 1];
      ApplyElsewhere(words[pokes[0].address := pokes[0].value], pokes[1..], address, fallback);
    }
  }

  /** Writes to distinct addresses all land. */
  lemma {:induction false} ApplyDistinct(words: map<int, u32>, pokes: seq<Poke>, fallback: u32)
    requires forall i, j | 0 <= i < j < |pokes| :: pokes[i].address != pokes[j].address
    ensures forall k | 0 <= k < |pokes| :: Stored(Apply(words, pokes), pokes[k].address, fallback) == pokes[k].value
    decreases |pokes|
  {
    if pokes != [] {
      var rest := pokes[1..];
      var first := words[pokes[0].address := pokes[0].value];
      assert forall k | 0 <= k < |rest| :: rest[k] == pokes[k + 1];
      ApplyDistinct(first, rest, fallback);
      ApplyElsewhere(first, rest, pokes[0].address, fallback);
    }
  }

  /** Read offset `8i` and `8i+4` of the buffer are the words at the slot's
      two write addresses. */
  lemma ImageWords(words: map<int, u32>, fallback: u32, slot: nat)
    requires slot < SLOT_COUNT
    ensures WordAt(Image(words, fallback), 8 * slot) == Stored(words, INVENTORY_OFFSET + 8 * slot, fallback)
    ensures WordAt(Image(words, fallback), 8 * slot + 4) == Stored(words, INVENTORY_OFFSET + 8 * slot + 4, fallback)
  {
    var raw := Image(words, fallback);
    ImageWord(words, fallback, 2 * slot);
    ImageWord(words, fallback, 2 * slot + 1);
  }

  lemma ImageWord(words: map<int, u32>, fallback: u32, w: nat)
    requires w < 2 * SLOT_COUNT
    ensures WordAt(Image(words, fallback), 4 * w) == Stored(words, INVENTORY_OFFSET + 4 * w, fallback)
  {
    var raw := Image(words, fallback);
    var v := Stored(words, INVENTORY_OFFSET + 4 * w, fallback);
    forall j | 0 <= j < 4 ensures raw[4 * w + j] == LeBytes(v)[j] {
      assert (4 * w + j) / 4 == w;
      assert (4 * w + j) % 4 == j;
    }
    assert raw[4 * w..4 * w + 4] == LeBytes(v);
    FromLeOfLeBytes(v);
  }

  /** Filling the inventory and reading it back agree: if every write of a
      fill stored its word, a read of the 320 bytes decodes every slot as
      the words the fill wrote. For an item fill (an id other than the
      recipe marker) each slot is that item with the stored count
      `count - 1`; for a recipe fill each slot is one of that recipe. */
  lemma FillThenDecode(words: map<int, u32>, fallback: u32, kind: ItemType, id: u32, count: u32, catalog: Catalog)
    requires kind == ItemKind ==> count >= 1
    ensures var decoded := DecodeInventory(Image(Apply(words, FillPokes(kind, id, count, SLOT_COUNT)), fallback), catalog);
      forall i | 0 <= i < SLOT_COUNT :: decoded[i] == DecodeSlot(SlotWords(kind, id, count).0, SlotWords(kind, id, count).1, catalog)
    ensures kind == ItemKind && id != RECIPE_MARKER ==>
              forall i | 0 <= i < SLOT_COUNT ::
                var e := DecodeInventory(Image(Apply(words, FillPokes(kind, id, count, SLOT_COUNT)), fallback), catalog)[i];
                e.item.Item? && e.item.itemId == id && e.count == count - 1
    ensures kind == RecipeKind ==>
              forall i | 0 <= i < SLOT_COUNT ::
                var e := DecodeInventory(Image(Apply(words, FillPokes(kind, id, count, SLOT_COUNT)), fallback), catalog)[i];
                e.item.Recipe? && e.item.recipeId == id && e.count == 1
  {
    var filled := Apply(words, FillPokes(kind, id, count, SLOT_COUNT));
    var raw := Image(filled, fallback);
    var w := SlotWords(kind, id, count);
    FilledWords(words, fallback, kind, id, count);
    DecodeSlotClassifies(w.0, w.1, catalog);
    assert forall i | 0 <= i < SLOT_COUNT ::
      DecodeInventory(raw, catalog)[i] == DecodeSlot(WordAt(raw, SLOT_SIZE * i), WordAt(raw, SLOT_SIZE * i + 4), catalog);
  }

  /** After a fill, every slot of the image holds the fill's two words. */
  lemma FilledWords(words: map<int, u32>, fallback: u32, kind: ItemType, id: u32, count: u32)
    requires kind == ItemKind ==> count >= 1
    ensures var raw := Image(Apply(words, FillPokes(kind, id, count, SLOT_COUNT)), fallback);
      forall i | 0 <= i < SLOT_COUNT ::
        WordAt(raw, 8 * i) == SlotWords(kind, id, count).0 && WordAt(raw, 8 * i + 4) == SlotWords(kind, id, count).1
  {
    forall i | 0 <= i < SLOT_COUNT
      ensures var raw := Image(Apply(words, FillPokes(kind, id, count, SLOT_COUNT)), fallback);
        WordAt(raw, 8 * i) == SlotWords(kind, id, count).0 && WordAt(raw, 8 * i + 4) == SlotWords(kind, id, count).1
    {
      FilledSlot(words, fallback, kind, id, count, i);
    }
  }

  lemma FilledSlot(words: map<int, u32>, fallback: u32, kind: ItemType, id: u32, count: u32, i: nat)
    requires (kind == ItemKind ==> count >= 1) && i < SLOT_COUNT
    ensures var raw := Image(Apply(words, FillPokes(kind, id, count, SLOT_COUNT)), fallback);
      WordAt(raw, 8 * i) == SlotWords(kind, id, count).0 && WordAt(raw, 8 * i + 4) == SlotWords(kind, id, count).1
  {
    var pokes := FillPokes(kind, id, count, SLOT_COUNT);
    var filled := Apply(words, pokes);
    FillPokesLayout(kind, id, count, SLOT_COUNT);
    assert pokes[2 * i].address == INVENTORY_OFFSET + 8 * i;
    assert pokes[2 * i + 1].address == INVENTORY_OFFSET + 8 * i + 4;
    assert (2 * i) % 2 == 0 && (2 * i + 1) % 2 == 1;
    ApplyDistinct(words, pokes, fallback);
    assert Stored(filled, pokes[2 * i].address, fallback) == pokes[2 * i].value;
    assert Stored(filled, pokes[2 * i + 1].address, fallback) == pokes[2 * i + 1].value;
    ImageWords(filled, fallback, i);
  }

  // ---------------------------------------------------------------------
  // The game

  class Acnh {
    const switch: Switch

    ghost predicate Valid()
      reads this, switch, switch.handle
    {
      switch.Valid()
    }

    /** `ACNH::new` once connected. */
    constructor (switch: Switch)
      requires switch.Valid()
      ensures Valid() && this.switch == switch
    {
      this.switch := switch;
    }

    /** One `write_dword`. `writes` is the entry it adds to the log. */
    method WriteWord(address: u32, value: u32) returns (s: Status, ghost writes: seq<DwordWrite>)
      requires Valid()
      modifies switch, switch.handle
      ensures Valid()
      ensures switch.dwordLog == old(switch.dwordLog) + writes
      ensures switch.handle.trace == old(switch.handle.trace) + IssuedBy(writes)
      ensures OnlyWritesTo(switch.writeEndpoint, IssuedBy(writes))
      ensures SentFrom(switch.handle.device, old(switch.handle.calls), switch.writeEndpoint, writes)
      ensures Performed(writes, [Poke(address, value)], s)
      ensures s == PokeRun(switch.handle.device, old(switch.handle.calls), switch.writeEndpoint, address, value).status
      ensures writes == [DwordWrite(address, value, s,
                                    PokeRun(switch.handle.device, old(switch.handle.calls), switch.writeEndpoint, address, value).issued)]
    {
      s := switch.WriteDword(address, value);
      writes := [switch.dwordLog[|switch.dwordLog| - 1]];
      IssuedBySingle(writes[0]);
      SentFromSingle(switch.handle.device, old(switch.handle.calls), switch.writeEndpoint, writes[0]);
    }

    /** `set_inventory_item`: the id at the slot, then `count - 1` four
        bytes on; a failed write ends it. */
    method SetInventoryItem(slot: u32, itemId: u32, count: u32) returns (s: Status, ghost writes: seq<DwordWrite>)
      requires Valid() && SlotFits(slot) && count >= 1
      modifies switch, switch.handle
      ensures Valid()
      ensures switch.dwordLog == old(switch.dwordLog) + writes
      ensures switch.handle.trace == old(switch.handle.trace) + IssuedBy(writes)
      ensures OnlyWritesTo(switch.writeEndpoint, IssuedBy(writes))
      ensures SentFrom(switch.handle.device, old(switch.handle.calls), switch.writeEndpoint, writes)
      ensures Performed(writes, SlotPokes(slot, ItemKind, itemId, count), s)
    {
      s, writes := WriteWord(INVENTORY_OFFSET + SLOT_SIZE * slot, itemId);
      if s.Err? {
        PerformedStopped(writes, [Poke(SlotAddress(slot), itemId)], [Poke(SlotAddress(slot) + 4, count - 1)], s);
        return;
      }
      ghost var second;
      ghost var mid := switch.handle.calls;
      assert mid == old(switch.handle.calls) + |IssuedBy(writes)|;
      s, second := WriteWord(INVENTORY_OFFSET + SLOT_SIZE * slot + 4, count - 1);
      CallsAppend(switch.handle.device, old(switch.handle.calls), mid, switch.writeEndpoint,
                  old(switch.dwordLog), old(switch.handle.trace), writes, second);
      PerformedAppend(writes, [Poke(SlotAddress(slot), itemId)], second, [Poke(SlotAddress(slot) + 4, count - 1)], s);
      writes := writes + second;
    }

    /** `set_inventory_recipe`: the recipe marker at the slot, then the
        recipe id four bytes on; a failed write ends it. */
    method SetInventoryRecipe(slot: u32, recipeId: u32) returns (s: Status, ghost writes: seq<DwordWrite>)
      requires Valid() && SlotFits(slot)
      modifies switch, switch.handle
      ensures Valid()
      ensures switch.dwordLog == old(switch.dwordLog) + writes
      ensures switch.handle.trace == old(switch.handle.trace) + IssuedBy(writes)
      ensures OnlyWritesTo(switch.writeEndpoint, IssuedBy(writes))
      ensures SentFrom(switch.handle.device, old(switch.handle.calls), switch.writeEndpoint, writes)
      ensures Performed(writes, SlotPokes(slot, RecipeKind, recipeId, 0), s)
    {
      s, writes := WriteWord(INVENTORY_OFFSET + SLOT_SIZE * slot, RECIPE_MARKER);
      if s.Err? {
        PerformedStopped(writes, [Poke(SlotAddress(slot), RECIPE_MARKER)], [Poke(SlotAddress(slot) + 4, recipeId)], s);
        return;
      }
      ghost var second;
      ghost var mid := switch.handle.calls;
      assert mid == old(switch.handle.calls) + |IssuedBy(writes)|;
      s, second := WriteWord(INVENTORY_OFFSET + SLOT_SIZE * slot + 4, recipeId);
      CallsAppend(switch.handle.device, old(switch.handle.calls), mid, switch.writeEndpoint,
                  old(switch.dwordLog), old(switch.handle.trace), writes, second);
      PerformedAppend(writes, [Poke(SlotAddress(slot), RECIPE_MARKER)], second, [Poke(SlotAddress(slot) + 4, recipeId)], s);
      writes := writes + second;
    }

    /** `set_inventory`: by the entry's variant; a recipe ignores `count`. */
    method SetInventory(slot: u32, item: Item, count: u32) returns (s: Status, ghost writes: seq<DwordWrite>)
      requires Valid() && SlotFits(slot) && (item.Item? ==> count >= 1)
      modifies switch, switch.handle
      ensures Valid()
      ensures switch.dwordLog == old(switch.dwordLog) + writes
      ensures switch.handle.trace == old(switch.handle.trace) + IssuedBy(writes)
      ensures OnlyWritesTo(switch.writeEndpoint, IssuedBy(writes))
      ensures SentFrom(switch.handle.device, old(switch.handle.calls), switch.writeEndpoint, writes)
      ensures Performed(writes, SlotPokes(slot, GetType(item), GetId(item), count), s)
    {
      match item
      case Item(itemId, _, _, _) =>
        s, writes := SetInventoryItem(slot, itemId, count);
      case Recipe(recipeId, _, _) =>
        s, writes := SetInventoryRecipe(slot, recipeId);
    }

    /** Slots `0..40` in turn, stopping at the first failed slot. */
    method FillInventoryItems(itemId: u32, count: u32) returns (s: Status, ghost writes: seq<DwordWrite>)
      requires Valid() && count >= 1
      modifies switch, switch.handle
      ensures Valid()
      ensures switch.dwordLog == old(switch.dwordLog) + writes
      ensures switch.handle.trace == old(switch.handle.trace) + IssuedBy(writes)
      ensures OnlyWritesTo(switch.writeEndpoint, IssuedBy(writes))
      ensures SentFrom(switch.handle.device, old(switch.handle.calls), switch.writeEndpoint, writes)
      ensures Performed(writes, FillPokes(ItemKind, itemId, count, SLOT_COUNT), s)
    {
      writes := [];
      var slot: u32 := 0;
      while slot < 40
        invariant 0 <= slot <= 40
        invariant Valid()
        invariant switch.dwordLog == old(switch.dwordLog) + writes
        invariant switch.handle.trace == old(switch.handle.trace) + IssuedBy(writes)
        invariant OnlyWritesTo(switch.writeEndpoint, IssuedBy(writes))
        invariant SentFrom(switch.handle.device, old(switch.handle.calls), switch.writeEndpoint, writes)
        invariant Performed(writes, FillPokes(ItemKind, itemId, count, slot), Ok)
      {
        ghost var last;
        ghost var mid := switch.handle.calls;
        assert mid == old(switch.handle.calls) + |IssuedBy(writes)|;
        s, last := SetInventoryItem(slot, itemId, count);
        CallsAppend(switch.handle.device, old(switch.handle.calls), mid, switch.writeEndpoint,
                    old(switch.dwordLog), old(switch.handle.trace), writes, last);
        FillStep(ItemKind, itemId, count, slot, s, writes, last);
        if s.Err? {
          writes := writes + last;
          return;
        }
        writes := writes + last;
        slot := slot + 1;
      }
      s := Ok;
    }

    method FillInventoryRecipes(recipeId: u32) returns (s: Status, ghost writes: seq<DwordWrite>)
      requires Valid()
      modifies switch, switch.handle
      ensures Valid()
      ensures switch.dwordLog == old(switch.dwordLog) + writes
      ensures switch.handle.trace == old(switch.handle.trace) + IssuedBy(writes)
      ensures OnlyWritesTo(switch.writeEndpoint, IssuedBy(writes))
      ensures SentFrom(switch.handle.device, old(switch.handle.calls), switch.writeEndpoint, writes)
      ensures Performed(writes, FillPokes(RecipeKind, recipeId, 0, SLOT_COUNT), s)
    {
      writes := [];
      var slot: u32 := 0;
      while slot < 40
        invariant 0 <= slot <= 40
        invariant Valid()
        invariant switch.dwordLog == old(switch.dwordLog) + writes
        invariant switch.handle.trace == old(switch.handle.trace) + IssuedBy(writes)
        invariant OnlyWritesTo(switch.writeEndpoint, IssuedBy(writes))
        invariant SentFrom(switch.handle.device, old(switch.handle.calls), switch.writeEndpoint, writes)
        invariant Performed(writes, FillPokes(RecipeKind, recipeId, 0, slot), Ok)
      {
        ghost var last;
        ghost var mid := switch.handle.calls;
        assert mid == old(switch.handle.calls) + |IssuedBy(writes)|;
        s, last := SetInventoryRecipe(slot, recipeId);
        CallsAppend(switch.handle.device, old(switch.handle.calls), mid, switch.writeEndpoint,
                    old(switch.dwordLog), old(switch.handle.trace), writes, last);
        FillStep(RecipeKind, recipeId, 0, slot, s, writes, last);
        if s.Err? {
          writes := writes + last;
          return;
        }
        writes := writes + last;
        slot := slot + 1;
      }
      s := Ok;
    }

    method FillInventory(item: Item, count: u32) returns (s: Status, ghost writes: seq<DwordWrite>)
      requires Valid() && (item.Item? ==> count >= 1)
      modifies switch, switch.handle
      ensures Valid()
      ensures switch.dwordLog == old(switch.dwordLog) + writes
      ensures switch.handle.trace == old(switch.handle.trace) + IssuedBy(writes)
      ensures OnlyWritesTo(switch.writeEndpoint, IssuedBy(writes))
      ensures SentFrom(switch.handle.device, old(switch.handle.calls), switch.writeEndpoint, writes)
      ensures Performed(writes, FillPokes(GetType(item), GetId(item), count, SLOT_COUNT), s)
    {
      ghost var kind, id := GetType(item), GetId(item);
      writes := [];
      var slot: u32 := 0;
      while slot < 40
        invariant 0 <= slot <= 40
        invariant Valid()
        invariant switch.dwordLog == old(switch.dwordLog) + writes
        invariant switch.handle.trace == old(switch.handle.trace) + IssuedBy(writes)
        invariant OnlyWritesTo(switch.writeEndpoint, IssuedBy(writes))
        invariant SentFrom(switch.handle.device, old(switch.handle.calls), switch.writeEndpoint, writes)
        invariant Performed(writes, FillPokes(kind, id, count, slot), Ok)
      {
        ghost var last;
        ghost var mid := switch.handle.calls;
        assert mid == old(switch.handle.calls) + |IssuedBy(writes)|;
        s, last := SetInventory(slot, item, count);
        CallsAppend(switch.handle.device, old(switch.handle.calls), mid, switch.writeEndpoint,
                    old(switch.dwordLog), old(switch.handle.trace), writes, last);
        FillStep(kind, id, count, slot, s, writes, last);
        if s.Err? {
          writes := writes + last;
          return;
        }
        writes := writes + last;
        slot := slot + 1;
      }
      s := Ok;
    }

    /** `clear_inventory`: fill every slot with item `0xfffe`, count 1. */
    method ClearInventory() returns (s: Status, ghost writes: seq<DwordWrite>)
      requires Valid()
      modifies switch, switch.handle
      ensures Valid()
      ensures switch.dwordLog == old(switch.dwordLog) + writes
      ensures switch.handle.trace == old(switch.handle.trace) + IssuedBy(writes)
      ensures OnlyWritesTo(switch.writeEndpoint, IssuedBy(writes))
      ensures SentFrom(switch.handle.device, old(switch.handle.calls), switch.writeEndpoint, writes)
      ensures Performed(writes, FillPokes(ItemKind, EMPTY_ITEM_ID, 1, SLOT_COUNT), s)
    {
      s, writes := FillInventoryItems(EMPTY_ITEM_ID, 1);
    }

    /** `get_inventory`: read the 320 bytes at `0xAFB1E6E0` into a zeroed
        buffer and decode them into 40 entries; a failed read is the error. */
    method GetInventory(catalog: Catalog) returns (s: Status, inventory: seq<InventoryItem>, ghost raw: seq<byte>)
      requires Valid()
      modifies switch.handle
      ensures Valid()
      ensures switch.handle.trace == old(switch.handle.trace)
                + Run(switch.handle.device, old(switch.handle.calls), switch.ReadPlan(INVENTORY_OFFSET, INVENTORY_SIZE, INVENTORY_SIZE)).issued
      ensures s == Run(switch.handle.device, old(switch.handle.calls), switch.ReadPlan(INVENTORY_OFFSET, INVENTORY_SIZE, INVENTORY_SIZE)).status
      ensures |raw| == INVENTORY_SIZE
      ensures s.Ok? ==> raw == Received(seq(INVENTORY_SIZE, _ => 0), DataOf(switch.handle.device(old(switch.handle.calls) + 9)))
      ensures s.Ok? ==> inventory == DecodeInventory(raw, catalog) && |inventory| == SLOT_COUNT
      ensures s.Err? ==> inventory == []
    {
      var buffer := new byte[INVENTORY_SIZE](_ => 0);
      assert buffer[..] == seq(INVENTORY_SIZE, _ => 0);
      s := switch.ReadBytes(INVENTORY_OFFSET, buffer, INVENTORY_SIZE);
      raw := buffer[..];
      if s.Err? {
        return s, [], raw;
      }
      inventory := DecodeInventory(buffer[..], catalog);
    }
  }

  /** One slot of a fill loop: the calls `last` of slot `n` follow the
      calls `before` of slots `0..n`, and the fill goes on to slot `n + 1`
      or has stopped failed. */
  lemma FillStep(kind: ItemType, id: u32, count: u32, n: nat, s: Status, before: seq<DwordWrite>, last: seq<DwordWrite>)
    requires n < SLOT_COUNT && (kind == ItemKind ==> count >= 1)
    requires Performed(before, FillPokes(kind, id, count, n), Ok) && Performed(last, SlotPokes(n, kind, id, count), s)
    ensures s.Ok? ==> Performed(before + last, FillPokes(kind, id, count, n + 1), Ok)
    ensures s.Err? ==> Performed(before + last, FillPokes(kind, id, count, SLOT_COUNT), s)
  {
    if s.Ok? {
      PerformedAppend(before, FillPokes(kind, id, count, n), last, SlotPokes(n, kind, id, count), Ok);
    } else {
      PerformedStop(before, FillPokes(kind, id, count, n), last, SlotPokes(n, kind, id, count), kind, id, count, n + 1, s);
    }
  }

  /** A fill that stopped at slot `n - 1` stays stopped whatever the later
      slots would have written. */
  lemma PerformedStop(before: seq<DwordWrite>, done: seq<Poke>, last: seq<DwordWrite>, slotPlan: seq<Poke>,
                      kind: ItemType, id: u32, count: u32, n: nat, s: Status)
    requires 1 <= n <= SLOT_COUNT && (kind == ItemKind ==> count >= 1)
    requires done == FillPokes(kind, id, count, n - 1) && slotPlan == SlotPokes(n - 1, kind, id, count)
    requires Performed(before, done, Ok) && Performed(last, slotPlan, s) && s.Err?
    ensures Performed(before + last, FillPokes(kind, id, count, SLOT_COUNT), s)
  {
    PerformedAppend(before, done, last, slotPlan, s);
    FillPokesPrefix(kind, id, count, n, SLOT_COUNT);
    var all := FillPokes(kind, id, count, SLOT_COUNT);
    assert all == (done + slotPlan) + all[2 * n..];
    PerformedStopped(before + last, done + slotPlan, all[2 * n..], s);
  }

  /** A shorter fill plan is a prefix of a longer one. */
  lemma {:induction false} FillPokesPrefix(kind: ItemType, id: u32, count: u32, n: nat, m: nat)
    requires n <= m <= SLOT_COUNT && (kind == ItemKind ==> count >= 1)
    ensures FillPokes(kind, id, count, m)[..2 * n] == FillPokes(kind, id, count, n)
    decreases m
  {
    if m > n {
      FillPokesPrefix(kind, id, count, n, m - 1);
      var shorter := FillPokes(kind, id, count, m - 1);
      assert (shorter + SlotPokes(m - 1, kind, id, count))[..2 * n] == shorter[..2 * n];
    } else {
      assert FillPokes(kind, id, count, m)[..2 * n] == FillPokes(kind, id, count, m);
    }
  }
}
