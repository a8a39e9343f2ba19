/**
 * Container extraction from a block entity's NBT (`parseContainer`): whether a
 * block is a container, and the items and enchantments its NBT lists.
 */
module ContainerParse {
  import opened Wrappers
  import opened Text
  import opened Nbt

  datatype EnchantmentInfo = EnchantmentInfo(id: string, level: int)

  datatype ItemInfo = ItemInfo(name: string, count: int, slot: int, enchantments: seq<EnchantmentInfo>, customName: string)

  datatype ContainerInfo = ContainerInfo(blockName: string, x: int, y: int, z: int, customName: string, items: seq<ItemInfo>)

  /** The block-name fragments that mark a container. */
  const ContainerKeywords: seq<string> :=
    ["chest", "barrel", "shulker_box", "hopper", "dispenser", "dropper", "furnace", "smoker", "blast_furnace"]

  /** The block is a container when its name contains one of the keywords. */
  predicate IsContainer(blockName: string) {
    exists i :: 0 <= i < |ContainerKeywords| && Contains(blockName, ContainerKeywords[i])
  }

  /** A text that contains `a + b` contains `b`. */
  lemma {:induction false} ContainsSuffixOfNeedle(s: string, a: string, b: string)
    requires Contains(s, a + b)
    ensures Contains(s, b)
    decreases |s|
  {
    if HasPrefix(s, a + b) {
      assert Contains(s[|a|..], b) by {
        assert s[|a|..][..|b|] == (a + b)[|a|..];
      }
      ContainsAfterDrop(s, |a|, b);
    } else {
      ContainsSuffixOfNeedle(s[1..], a, b);
    }
  }

  /** Containment in a suffix is containment in the whole. */
  lemma {:induction false} ContainsAfterDrop(s: string, k: nat, b: string)
    requires k <= |s| && Contains(s[k..], b)
    ensures Contains(s, b)
    decreases k
  {
    if k > 0 {
      assert s[1..][k - 1..] == s[k..];
      ContainsAfterDrop(s[1..], k - 1, b);
    }
  }

  /** The nine tests `parseContainer` makes are the keyword test. */
  lemma KeywordTests(blockName: string)
    ensures IsContainer(blockName) <==>
              Contains(blockName, "chest") || Contains(blockName, "barrel") || Contains(blockName, "shulker_box")
              || Contains(blockName, "hopper") || Contains(blockName, "dispenser")
              || Contains(blockName, "dropper") || Contains(blockName, "furnace")
              || Contains(blockName, "smoker") || Contains(blockName, "blast_furnace")
  {
    if IsContainer(blockName) {
      var i :| 0 <= i < |ContainerKeywords| && Contains(blockName, ContainerKeywords[i]);
    }
    if Contains(blockName, "chest") { assert ContainerKeywords[0] == "chest"; }
    if Contains(blockName, "barrel") { assert ContainerKeywords[1] == "barrel"; }
    if Contains(blockName, "shulker_box") { assert ContainerKeywords[2] == "shulker_box"; }
    if Contains(blockName, "hopper") { assert ContainerKeywords[3] == "hopper"; }
    if Contains(blockName, "dispenser") { assert ContainerKeywords[4] == "dispenser"; }
    if Contains(blockName, "dropper") { assert ContainerKeywords[5] == "dropper"; }
    if Contains(blockName, "furnace") { assert ContainerKeywords[6] == "furnace"; }
    if Contains(blockName, "smoker") { assert ContainerKeywords[7] == "smoker"; }
    if Contains(blockName, "blast_furnace") { assert ContainerKeywords[8] == "blast_furnace"; }
  }

  /** Any name with a keyword inside it is a container. */
  lemma KeywordMakesContainer(pre: string, i: nat, post: string)
    requires i < |ContainerKeywords|
    ensures IsContainer(pre + ContainerKeywords[i] + post)
  {
    var s := pre + ContainerKeywords[i] + post;
    assert HasPrefix(s[|pre|..], ContainerKeywords[i]) by {
      assert s[|pre|..][..|ContainerKeywords[i]|] == ContainerKeywords[i];
    }
    ContainsAfterDrop(s, |pre|, ContainerKeywords[i]);
  }

  /** The last keyword never decides anything: a `blast_furnace` name already contains `furnace`. */
  lemma BlastFurnaceImpliesFurnace(blockName: string)
    requires Contains(blockName, "blast_furnace")
    ensures Contains(blockName, "furnace")
  {
    assert "blast_furnace" == "blast_" + "furnace";
    ContainsSuffixOfNeedle(blockName, "blast_", "furnace");
  }

  // ---------------------------------------------------------------------------
  // Reading the NBT

  /** A string-typed NBT entry, or the empty string. */
  function StringOr(v: Value, other: string): string {
    if v.String? then v.s else other
  }

  /** `Count` or `Slot`: a byte or an int, otherwise 0. */
  function SmallInt(v: Value): int {
    match v
    case Byte(b) => b as int
    case Int(i) => i
    case _ => 0
  }

  /** The enchantment a compound entry describes: `id` if a string, `lvl` from an int16 or an int. */
  function EnchantmentOf(m: map<string, Value>): EnchantmentInfo {
    var lvl := Get(m, "lvl");
    EnchantmentInfo(StringOr(Get(m, "id"), ""),
                    if lvl.Int16? then lvl.i16 as int else if lvl.Int? then lvl.i else 0)
  }

  /** The enchantments of a list, one per compound entry, in order. */
  function EnchantmentsOf(list: seq<Value>): (r: seq<EnchantmentInfo>)
    ensures |r| <= |list|
    decreases |list|
  {
    if |list| == 0 then []
    else
      var last := list[|list| - 1];
      EnchantmentsOf(list[..|list| - 1]) + (if last.Compound? then [EnchantmentOf(last.entries)] else [])
  }

  /** An item's name: `Name` if it is a string (even an empty one), else `id` if a string, else empty. */
  function ItemName(m: map<string, Value>): string {
    if Get(m, "Name").String? then Get(m, "Name").s else StringOr(Get(m, "id"), "")
  }

  /** The item a compound entry describes; only a list under `Enchantments` is read. */
  function ItemOf(m: map<string, Value>): ItemInfo {
    var ench := Get(m, "Enchantments");
    ItemInfo(ItemName(m), SmallInt(Get(m, "Count")), SmallInt(Get(m, "Slot")),
             if ench.List? then EnchantmentsOf(ench.items) else [],
             StringOr(Get(m, "CustomName"), ""))
  }

  /** The items of a list: one per compound entry with a non-empty name, in order. */
  function ItemsOf(list: seq<Value>): (r: seq<ItemInfo>)
    ensures |r| <= |list|
    ensures forall k :: 0 <= k < |r| ==> r[k].name != ""
    decreases |list|
  {
    if |list| == 0 then []
    else
      var last := list[|list| - 1];
      ItemsOf(list[..|list| - 1]) + (if last.Compound? && ItemOf(last.entries).name != "" then [ItemOf(last.entries)] else [])
  }

  /** The entries under `Items`: a list as is, a single compound as a one-entry list, anything else as none. */
  function ItemEntries(v: Value): seq<Value> {
    match v
    case List(items) => items
    case Compound(m) => [Compound(m)]
    case _ => []
  }

  /** Items are read entry by entry: the items of two lists are the items of each, in order. */
  lemma {:induction false} ItemsOfAppend(a: seq<Value>, b: seq<Value>)
    ensures ItemsOf(a + b) == ItemsOf(a) + ItemsOf(b)
    decreases |b|
  {
    if |b| == 0 {
      assert a + b == a;
    } else {
      var b' := b[..|b| - 1];
      var last := b[|b| - 1];
      var tail := if last.Compound? && ItemOf(last.entries).name != "" then [ItemOf(last.entries)] else [];
      assert (a + b)[..|a + b| - 1] == a + b' && (a + b)[|a + b| - 1] == last;
      assert ItemsOf(a + b) == ItemsOf(a + b') + tail;
      ItemsOfAppend(a, b');
      assert ItemsOf(b) == ItemsOf(b') + tail;
      AppendAssoc(ItemsOf(a), ItemsOf(b'), tail);
    }
  }

  /** Every item read comes from a compound entry of the list. */
  lemma {:induction false} ItemsFromEntries(list: seq<Value>)
    ensures forall k :: 0 <= k < |ItemsOf(list)| ==>
              exists i :: 0 <= i < |list| && list[i].Compound? && ItemsOf(list)[k] == ItemOf(list[i].entries)
    decreases |list|
  {
    if |list| > 0 {
      var init := list[..|list| - 1];
      ItemsFromEntries(init);
      forall k | 0 <= k < |ItemsOf(list)|
        ensures exists i :: 0 <= i < |list| && list[i].Compound? && ItemsOf(list)[k] == ItemOf(list[i].entries)
      {
        if k < |ItemsOf(init)| {
          var i :| 0 <= i < |init| && init[i].Compound? && ItemsOf(init)[k] == ItemOf(init[i].entries);
          assert list[i] == init[i];
        } else {
          var i := |list| - 1;
          assert ItemsOf(list)[k] == ItemOf(list[i].entries);
          assert 0 <= i < |list| && list[i].Compound?;
        }
      }
    } else {
      assert ItemsOf(list) == [];
    }
  }

  /** A single compound under `Items` is read as one item (when it is named). */
  lemma SingleCompoundIsOneItem(m: map<string, Value>)
    requires ItemName(m) != ""
    ensures ItemsOf(ItemEntries(Compound(m))) == [ItemOf(m)]
  {
    assert [Compound(m)][..0] == [];
  }

  /** An empty `Name` hides the `id`: such an item is dropped. */
  lemma EmptyNameDropsItem(m: map<string, Value>, id: string)
    requires "Name" in m && m["Name"] == String("")
    ensures ItemsOf([Compound(m["id" := String(id)])]) == []
  {
    var m' := m["id" := String(id)];
    assert Get(m', "Name") == String("");
    assert [Compound(m')][..0] == [];
  }

  // ---------------------------------------------------------------------------
  // The extraction

  /** The enchantment loop: one enchantment per compound entry, other entries skipped. */
  method ParseEnchantments(enchantments: seq<Value>) returns (result: seq<EnchantmentInfo>)
    ensures result == EnchantmentsOf(enchantments)
    ensures |result| <= |enchantments|
  {
    result := [];
    for i := 0 to |enchantments|
      invariant result == EnchantmentsOf(enchantments[..i])
    {
      assert enchantments[..i + 1][..i] == enchantments[..i];
      var enchRaw := enchantments[i];
      if !enchRaw.Compound? {
        continue;
      }
      var enchMap := enchRaw.entries;
      var ench := EnchantmentInfo("", 0);
      var id := Get(enchMap, "id");
      if id.String? {
        ench := ench.(id := id.s);
      }
      var level := Get(enchMap, "lvl");
      if level.Int16? {
        ench := ench.(level := level.i16 as int);
      } else if level.Int? {
        ench := ench.(level := level.i);
      }
      result := result + [ench];
    }
    assert enchantments[..|enchantments|] == enchantments;
  }

  /** The body of the item loop for one compound entry. */
  method ParseItem(itemMap: map<string, Value>) returns (item: ItemInfo)
    ensures item == ItemOf(itemMap)
    ensures item.name == (if Get(itemMap, "Name").String? then Get(itemMap, "Name").s
                          else if Get(itemMap, "id").String? then Get(itemMap, "id").s else "")
  {
    item := ItemInfo("", 0, 0, [], "");
    var name := Get(itemMap, "Name");
    var id := Get(itemMap, "id");
    if name.String? {
      item := item.(name := name.s);
    } else if id.String? {
      item := item.(name := id.s);
    }
    var count := Get(itemMap, "Count");
    if count.Byte? {
      item := item.(count := count.b as int);
    } else if count.Int? {
      item := item.(count := count.i);
    }
    var slot := Get(itemMap, "Slot");
    if slot.Byte? {
      item := item.(slot := slot.b as int);
    } else if slot.Int? {
      item := item.(slot := slot.i);
    }
    var customName := Get(itemMap, "CustomName");
    if customName.String? {
      item := item.(customName := customName.s);
    }
    var enchantments := Get(itemMap, "Enchantments");
    if enchantments.List? {
      var parsed := ParseEnchantments(enchantments.items);
      item := item.(enchantments := parsed);
    }
  }

  /** The item loop: one item per compound entry with a non-empty name, other entries skipped. */
  method ParseItems(itemsList: seq<Value>) returns (items: seq<ItemInfo>)
    ensures items == ItemsOf(itemsList)
    ensures forall k :: 0 <= k < |items| ==> items[k].name != ""
  {
    items := [];
    for i := 0 to |itemsList|
      invariant items == ItemsOf(itemsList[..i])
    {
      assert itemsList[..i + 1][..i] == itemsList[..i];
      var itemRaw := itemsList[i];
      if !itemRaw.Compound? {
        continue;
      }
      var item := ParseItem(itemRaw.entries);
      if item.name != "" {
        items := items + [item];
      }
    }
    assert itemsList[..|itemsList|] == itemsList;
  }

  /**
   * `parseContainer`: nothing for a block that is not a container; otherwise
   * the block's name and position, its custom name when that is a string, and
   * its named items in order.
   */
  method ParseContainer(blockName: string, x: int, y: int, z: int, nbtData: map<string, Value>)
    returns (container: Option<ContainerInfo>)
    ensures container.None? <==> !IsContainer(blockName)
    ensures container.Some? ==>
              && container.value.blockName == blockName
              && container.value.x == x && container.value.y == y && container.value.z == z
              && container.value.customName == StringOr(Get(nbtData, "CustomName"), "")
              && container.value.items == ItemsOf(ItemEntries(Get(nbtData, "Items")))
  {
    var isShulker := Contains(blockName, "shulker_box");
    var isContainer := Contains(blockName, "chest") || Contains(blockName, "barrel") || isShulker
                       || Contains(blockName, "hopper") || Contains(blockName, "dispenser")
                       || Contains(blockName, "dropper") || Contains(blockName, "furnace")
                       || Contains(blockName, "smoker") || Contains(blockName, "blast_furnace");
    KeywordTests(blockName);
    if !isContainer {
      return None;
    }

    var info := ContainerInfo(blockName, x, y, z, "", []);
    var customName := Get(nbtData, "CustomName");
    if customName.String? {
      info := info.(customName := customName.s);
    }

    if "Items" !in nbtData {
      return Some(info);
    }
    var itemsList: seq<Value>;
    match nbtData["Items"] {
      case List(items) => itemsList := items;
      case Compound(m) => itemsList := [Compound(m)];
      case _ => return Some(info);
    }

    var items := ParseItems(itemsList);
    info := info.(items := items);
    return Some(info);
  }
}
