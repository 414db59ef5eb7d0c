// base.c: the post-initialisation flag, the one-time initialisation run from
// keyboard_post_init_user, and the custom keycode that cycles the layers.

module Base {
  import opened Config
  import opened Qmk
  import opened LayerText
  import opened Persistence

  /** QMK's QK_USER, the first user keycode: KC_CYCLE_LAYERS. */
  const CycleLayersKey: u16 := 0x7E40

  /** The layer cycle_layer moves to from curr, or None when curr is not a valid layer. */
  function NextLayer(curr: byte): (next: Option<byte>)
    ensures curr >= LayerCount <==> next == None
    ensures next.Some? ==> next.value < LayerCount && next.value != curr
    ensures next.Some? ==> (next.value == 0 <==> curr == LayerCount - 1)
    ensures next.Some? && curr < LayerCount - 1 ==> next.value == curr + 1
  {
    if curr >= LayerCount then None else Some((curr + 1) % LayerCount)
  }

  /** The layer reached from l by pressing KC_CYCLE_LAYERS k times. */
  function Cycled(l: byte, k: nat): (r: byte)
    requires l < LayerCount
    ensures r < LayerCount
  {
    if k == 0 then l else NextLayer(Cycled(l, k - 1)).value
  }

  /** Pressing KC_CYCLE_LAYERS k times from layer l lands on layer (l + k) mod LAYER_COUNT. */
  lemma {:induction false} CycledIsModular(l: byte, k: nat)
    requires l < LayerCount
    ensures Cycled(l, k) == (l + k) % LayerCount
  {
    if k > 0 {
      CycledIsModular(l, k - 1);
    }
  }

  /** The cycle visits every layer and comes back after LAYER_COUNT presses. */
  lemma CycleVisitsAll(l: byte, target: byte)
    requires l < LayerCount && target < LayerCount
    ensures Cycled(l, LayerCount) == l
    ensures Cycled(l, (target - l + LayerCount) % LayerCount) == target
  {
    CycledIsModular(l, LayerCount);
    assert (l + LayerCount) % LayerCount == l;
    var d := (target - l + LayerCount) % LayerCount;
    assert d == if target >= l then target - l else target - l + LayerCount;
    CycledIsModular(l, d);
    assert (l + d) % LayerCount == target;
  }

  /** keycode_config: magic keycode remapping is disabled, every keycode stands for itself. */
  function KeycodeConfig(keycode: u16): (r: u16)
    ensures r == keycode
  {
    keycode
  }

  /** mod_config: modifier remapping is disabled, every modifier stands for itself. */
  function ModConfig(m: byte): (r: byte)
    ensures r == m
  {
    m
  }

  /** True when process_record_user leaves a key event to QMK's default processing. */
  predicate PassesThrough(keycode: u16)
  {
    keycode != CycleLayersKey
  }

  class Keyboard {
    /** g_post_init: true once init has run. */
    var postInit: bool

    constructor ()
      ensures !postInit
    {
      postInit := false;
    }

    /** is_post_init. */
    predicate IsPostInit()
      reads this
    {
      postInit
    }

    /** init: load or migrate the persisted labels, then mark initialisation complete. */
    method Init(o: Oled, p: Platform)
      requires o.Valid() && p.Valid()
      modifies this, o`user, p`eeprom
      ensures postInit && o.Valid() && p.Valid()
      ensures o.user == BootLabels(old(p.eeprom)) && p.eeprom == BootImage(old(p.eeprom))
    {
      PersistenceInit(o, p);
      postInit := true;
    }

    /** keyboard_post_init_user: initialise once; later calls change nothing. */
    method KeyboardPostInitUser(o: Oled, p: Platform)
      requires o.Valid() && p.Valid()
      modifies this, o`user, p`eeprom
      ensures postInit && o.Valid() && p.Valid()
      ensures !old(postInit) ==> o.user == BootLabels(old(p.eeprom)) && p.eeprom == BootImage(old(p.eeprom))
      ensures old(postInit) ==> o.user == old(o.user) && p.eeprom == old(p.eeprom)
    {
      if !postInit {
        Init(o, p);
      }
    }
  }

  /** cycle_layer: move to the next layer, wrapping after the last; nothing when the layer is invalid. */
  method CycleLayer(p: Platform)
    modifies p`layer
    ensures NextLayer(old(p.layer)).Some? ==> p.layer == NextLayer(old(p.layer)).value
    ensures NextLayer(old(p.layer)).None? ==> p.layer == old(p.layer)
  {
    var curr := p.layer;
    if curr >= LayerCount {
      return;
    }
    p.LayerMove((curr + 1) % LayerCount);
  }

  /**
   * process_record_user: KC_CYCLE_LAYERS cycles the layer on key press, does
   * nothing on release, and is consumed either way; every other key passes through.
   */
  method ProcessRecordUser(p: Platform, keycode: u16, pressed: bool) returns (passOn: bool)
    modifies p`layer
    ensures passOn == PassesThrough(keycode)
    ensures !passOn && pressed && NextLayer(old(p.layer)).Some? ==> p.layer == NextLayer(old(p.layer)).value
    ensures passOn || !pressed || NextLayer(old(p.layer)).None? ==> p.layer == old(p.layer)
  {
    if keycode == CycleLayersKey {
      if !pressed {
        return false;
      }
      CycleLayer(p);
      return false;
    }
    return true;
  }
}
