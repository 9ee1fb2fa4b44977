/**
 * The shop (ShopScreen.js): a catalogue of themes and skins, a coin balance, the list of unlocked
 * item ids and the item equipped in each slot; buying an item with confirmation and equipping it.
 */
module Shop {
  datatype ItemType = Theme | DinoSkin | FlappySkin

  datatype Item = Item(id: string, kind: ItemType, name: string, price: nat)

  /** The `shopItems` catalogue, section after section. */
  function Catalogue(): (items: seq<Item>)
    ensures |items| == 10
    ensures items[0].id == DefaultId(Theme) && items[4].id == DefaultId(DinoSkin) && items[7].id == DefaultId(FlappySkin)
    ensures forall i :: 0 <= i < |items| ==> (items[i].price == 0 <==> i == 0 || i == 4 || i == 7)
  {
    [ Item("theme_default", Theme, "Standard Dark", 0),
      Item("theme_matrix", Theme, "Matrix Code", 500),
      Item("theme_neon", Theme, "Cyber Neon", 1000),
      Item("theme_sunset", Theme, "Retro Sunset", 800),
      Item("dino_skin_default", DinoSkin, "Classic T-Rex", 0),
      Item("dino_skin_red", DinoSkin, "Red Runner", 300),
      Item("dino_skin_tux", DinoSkin, "Fancy Tuxedo", 600),
      Item("flappy_skin_default", FlappySkin, "Classic Bird", 0),
      Item("flappy_skin_gold", FlappySkin, "Golden Bird", 1000),
      Item("flappy_skin_nyan", FlappySkin, "Rainbow Cat", 1500) ]
  }

  /** The item unlocked and equipped for a slot from the start. */
  function DefaultId(t: ItemType): string {
    match t
    case Theme => "theme_default"
    case DinoSkin => "dino_skin_default"
    case FlappySkin => "flappy_skin_default"
  }

  /** `id` names a catalogue item of slot `t`. */
  predicate IdOfType(id: string, t: ItemType) {
    exists i :: 0 <= i < |Catalogue()| && Catalogue()[i].id == id && Catalogue()[i].kind == t
  }

  /** Catalogue ids are unique, and each slot's default is free. */
  lemma CatalogueFacts()
    ensures forall i, j :: 0 <= i < j < |Catalogue()| ==> Catalogue()[i].id != Catalogue()[j].id
    ensures forall t: ItemType, i :: 0 <= i < |Catalogue()| && Catalogue()[i].id == DefaultId(t) ==> Catalogue()[i].price == 0
  {
    var c := Catalogue();
    assert c[0].id == DefaultId(Theme) && c[4].id == DefaultId(DinoSkin) && c[7].id == DefaultId(FlappySkin);
  }

  /** Each slot's default names a catalogue item of that slot. */
  lemma DefaultsOfType()
    ensures forall t: ItemType :: IdOfType(DefaultId(t), t)
  {
    forall t: ItemType ensures IdOfType(DefaultId(t), t) {
      var c := Catalogue();
      match t
      case Theme => assert c[0].id == DefaultId(t) && c[0].kind == t;
      case DinoSkin => assert c[4].id == DefaultId(t) && c[4].kind == t;
      case FlappySkin => assert c[7].id == DefaultId(t) && c[7].kind == t;
    }
  }

  /** No id appears twice. */
  predicate NoDuplicates(s: seq<string>) {
    forall i, j :: 0 <= i < j < |s| ==> s[i] != s[j]
  }

  /** What a press on an item led to (the source answers with alerts). */
  datatype Outcome = Equipped | NotEnough(missing: int) | Cancelled | Bought

  class ShopState {
    var coins: int
    var unlocked: seq<string>
    var equipped: map<ItemType, string>

    /**
     * Coins never go negative, no id is unlocked twice, and every slot holds an unlocked item of
     * that slot.
     */
    ghost predicate Valid()
      reads this
    {
      && coins >= 0 && NoDuplicates(unlocked)
      && (forall t: ItemType :: t in equipped && equipped[t] in unlocked && IdOfType(equipped[t], t))
    }

    /** The initial state: no coins, the three defaults unlocked and equipped. */
    constructor()
      ensures Valid() && coins == 0
      ensures unlocked == [DefaultId(Theme), DefaultId(DinoSkin), DefaultId(FlappySkin)]
      ensures forall t: ItemType :: t in equipped && equipped[t] == DefaultId(t)
    {
      coins := 0;
      unlocked := [DefaultId(Theme), DefaultId(DinoSkin), DefaultId(FlappySkin)];
      equipped := map[Theme := DefaultId(Theme), DinoSkin := DefaultId(DinoSkin), FlappySkin := DefaultId(FlappySkin)];
      new;
      assert unlocked[0][0] == 't' && unlocked[1][0] == 'd' && unlocked[2][0] == 'f';
      assert NoDuplicates(unlocked);
      DefaultsOfType();
      forall t: ItemType
        ensures t in equipped && equipped[t] in unlocked
      {
        match t
        case Theme => assert equipped[t] == unlocked[0];
        case DinoSkin => assert equipped[t] == unlocked[1];
        case FlappySkin => assert equipped[t] == unlocked[2];
      }
    }

    /** `handleEquip`: the item's slot now holds its id; the other slots are unchanged. */
    method HandleEquip(item: Item)
      requires Valid() && item in Catalogue() && item.id in unlocked
      modifies this
      ensures Valid() && equipped == old(equipped)[item.kind := item.id]
      ensures coins == old(coins) && unlocked == old(unlocked)
    {
      equipped := equipped[item.kind := item.id];
    }

    /**
     * `handlePurchase`: an unlocked item is only equipped. A locked item costing more than the
     * coins is refused, reporting the shortfall. Otherwise the purchase is asked for and, when
     * `confirmed`, the price is paid, the id appended to the unlocked list and the item equipped.
     */
    method HandlePurchase(item: Item, confirmed: bool) returns (outcome: Outcome)
      requires Valid() && item in Catalogue()
      modifies this
      ensures Valid()
      ensures item.id in old(unlocked) ==>
        outcome == Equipped && coins == old(coins) && unlocked == old(unlocked)
        && equipped == old(equipped)[item.kind := item.id]
      ensures item.id !in old(unlocked) && old(coins) < item.price ==>
        outcome == NotEnough(item.price - old(coins)) && unchanged(this)
      ensures item.id !in old(unlocked) && old(coins) >= item.price && !confirmed ==>
        outcome == Cancelled && unchanged(this)
      ensures item.id !in old(unlocked) && old(coins) >= item.price && confirmed ==>
        outcome == Bought && coins == old(coins) - item.price && unlocked == old(unlocked) + [item.id]
        && equipped == old(equipped)[item.kind := item.id]
    {
      if item.id in unlocked {
        HandleEquip(item);
        return Equipped;
      }
      if coins < item.price {
        return NotEnough(item.price - coins);
      }
      if !confirmed {
        return Cancelled;
      }
      var newCoins := coins - item.price;
      var newUnlocked := unlocked + [item.id];
      coins := newCoins;
      unlocked := newUnlocked;
      HandleEquip(item);
      return Bought;
    }
  }
}
