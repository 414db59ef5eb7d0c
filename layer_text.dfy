// The label registry of oled_handlers.c: the compiled-in system labels, the
// user labels, the display flags, and oled_update, which draws one label.
// persistence.c reads and writes these labels and oled_handlers.c calls
// persistence.c, so the registry sits in a module of its own below both.

module LayerText {
  import opened Config
  import opened CStrings
  import opened Qmk

  /** g_sys_layer_text: each literal NUL-padded to an oled_text_t. */
  const SystemLabels: seq<Label> := [
    FromText(Ascii("Media\nPrev | Play | Next \nStop | Mute | ^\n  <  |   >  | v")),
    FromText(Ascii("Zoom\nTalk | Mic  | Video \nFull | Quit | Enter\nHand |      |")),
    FromText(Ascii("Numpad\n 1   |  2   | 3\n 4   |  5   | 6\n 7   |  8   | 9")),
    FromText(Ascii("Undefined"))
  ]

  /** The calls oled_update(layer, force_dirty) makes into the OLED driver. */
  function UpdateEvents(user: seq<Label>, layer: byte, force: bool): (e: seq<DisplayEvent>)
    requires |user| == LayerCount
    ensures layer >= LayerCount <==> e == []
    ensures layer < LayerCount ==> |e| >= 3 && e[0] == Clear && e[2] == Write(CText(user[layer]))
    ensures layer < LayerCount ==> (e[|e| - 1] == Render <==> force)
  {
    if layer >= LayerCount then []
    else [Clear, SetCursor(0, 0), Write(CText(user[layer]))] + (if force then [Render] else [])
  }

  /** The globals of oled_handlers.c. */
  class Oled {
    /** g_layer_text: the user labels, one per layer. */
    var user: seq<Label>
    /** g_oled_on. */
    var on: bool
    /** g_last_layer: the layer last drawn by oled_task_user. */
    var lastLayer: byte

    predicate Valid()
      reads this
    {
      |user| == LayerCount
    }

    /** The zero-initialised globals, with g_oled_on = true and g_last_layer = LAYER_COUNT. */
    constructor ()
      ensures Valid()
      ensures user == seq(LayerCount, _ => FromText([])) && on && lastLayer == LayerCount
    {
      user := seq(LayerCount, _ => FromText([]));
      on := true;
      lastLayer := LayerCount;
    }

    /** oled_update: redraw the given layer's label, rendering now when force is set. */
    method Update(p: Platform, layer: byte, force: bool)
      requires Valid()
      modifies p`display
      ensures p.display == old(p.display) + UpdateEvents(user, layer, force)
    {
      if layer >= LayerCount {
        return;
      }
      var txt := CText(user[layer]);
      p.OledClear();
      p.OledSetCursor(0, 0);
      p.OledWrite(txt);
      if force {
        p.OledRender();
      }
    }
  }
}
