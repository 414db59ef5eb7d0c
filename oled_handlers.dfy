// oled_handlers.c with OLED_ENABLE defined: storing a new label for a layer,
// the periodic redraw on layer change, and switching the display on and off.
// The label registry and oled_update live in LayerText.

module OledHandlers {
  import opened Config
  import opened CStrings
  import opened Qmk
  import opened LayerText
  import opened Persistence
  import opened Base

  /** oled_layer_update accepts a layer given as an ASCII digit: from '0' on, '0' is subtracted. */
  function NormalizeLayer(layer: byte): (l: byte)
    ensures layer < '0' as int ==> l == layer
    ensures '0' as int <= layer <= '9' as int ==> l == layer - '0' as int
    ensures l < LayerCount <==> layer < LayerCount || '0' as int <= layer < '0' as int + LayerCount
  {
    if layer >= '0' as int then layer - '0' as int else layer
  }

  // ---------------------------------------------------------------------
  // The label stored by oled_layer_update (see Findings in README.md).

  /**
   * The index line 49 of oled_handlers.c stores the terminating NUL at:
   * strnlen of the incoming data, bounded by the size of a label.
   */
  function TerminatorIndexAsWritten(data: seq<byte>): (k: nat)
    requires |data| >= LabelSize
    ensures k <= LabelSize
    ensures k == LabelSize <==> !IsCString(data)
  {
    StrNLen(data, LabelSize)
  }

  /** Data without a NUL in its first 87 bytes makes line 49 write one byte past the label. */
  lemma TerminatorOverflowsAsWritten()
    ensures var data := seq(LabelSize, _ => 'A' as int);
            TerminatorIndexAsWritten(data) == LabelSize
  {
    var data: seq<byte> := seq(LabelSize, _ => 'A' as int);
    assert !IsCString(data) by {
      assert forall i :: 0 <= i < LabelSize ==> data[i] != 0;
    }
  }

  /**
   * The label oled_layer_update stores: strncpy of the data, with the NUL at
   * the end of the copied text, or in the last byte when the text fills the label.
   */
  function StoredLabel(data: seq<byte>): (stored: Label)
    requires |data| >= LabelSize
    ensures IsCString(stored)
    ensures StrNCpy(stored, LabelSize) == stored
  {
    var r := Canonical(data);
    CanonicalStable(data);
    assert r[LabelSize - 1] == 0;
    r
  }

  /** For every input line 49 handles correctly, the stored label is the as-written one: its NUL lands inside the label on bytes strncpy already cleared. */
  lemma StoredLabelAgreesAsWritten(data: seq<byte>)
    requires |data| >= LabelSize && IsCString(data)
    ensures TerminatorIndexAsWritten(data) < LabelSize
    ensures StrNCpy(data, LabelSize)[TerminatorIndexAsWritten(data)] == 0
    ensures StoredLabel(data) == StrNCpy(data, LabelSize)
  {
    CanonicalOfCString(data);
  }

  /** The stored text is the data up to its first NUL, cut at 86 characters. */
  lemma StoredLabelText(data: seq<byte>)
    requires |data| >= LabelSize
    ensures var k := StrNLen(data, LabelSize);
            var m := if k < LabelSize then k else LabelSize - 1;
            CText(StoredLabel(data)) == data[..m] && StoredLabel(data) == FromText(data[..m])
  {
    var k := StrNLen(data, LabelSize);
    var m := if k < LabelSize then k else LabelSize - 1;
    CanonicalText(data);
    CanonicalCText(data);
    assert StoredLabel(data) == Canonical(data);
  }

  /**
   * The user labels after lines 48-49 of oled_handlers.c as written: strncpy
   * of the data, then a NUL at strnlen(data, 87). Data with no NUL in its
   * first 87 bytes puts that NUL one past the label; g_layer_text is one
   * contiguous array, so the store clears byte 0 of the next layer's label,
   * or lands past the array after the last layer.
   */
  function LayerUpdateLabelsAsWritten(user: seq<Label>, layer: byte, data: seq<byte>): (r: seq<Label>)
    requires |user| == LayerCount && |data| >= LabelSize
    ensures |r| == LayerCount
  {
    var l := NormalizeLayer(layer);
    if l >= LayerCount then user
    else
      var k := TerminatorIndexAsWritten(data);
      var copied := StrNCpy(data, LabelSize);
      if k < LabelSize then user[l := copied[k := 0]]
      else if l + 1 < LayerCount then user[l := copied][l + 1 := user[l + 1][0 := 0]]
      else user[l := copied]
  }

  /** As written, oled_layer_update stores past the label exactly for a valid layer and data with no NUL in its first 87 bytes. */
  predicate LabelOverrunAsWritten(layer: byte, data: seq<byte>)
    requires |data| >= LabelSize
  {
    NormalizeLayer(layer) < LayerCount && !IsCString(data)
  }

  /** On data holding a C string, the labels as written are the stored labels. */
  lemma LayerUpdateAsWrittenAgrees(user: seq<Label>, layer: byte, data: seq<byte>)
    requires |user| == LayerCount && |data| >= LabelSize && IsCString(data)
    ensures LayerUpdateLabelsAsWritten(user, layer, data) == LayerUpdateLabels(user, layer, data)
  {
    StoredLabelAgreesAsWritten(data);
    var k := TerminatorIndexAsWritten(data);
    var copied := StrNCpy(data, LabelSize);
    assert copied[k := 0] == copied;
  }

  /**
   * On data with no NUL in its first 87 bytes, as written, the layer's label
   * holds all 87 bytes with no NUL among them, the next layer's label becomes
   * empty, and the other labels stay; the corrected label keeps 86 bytes.
   */
  lemma LayerUpdateAsWrittenClearsNext(user: seq<Label>, layer: byte, data: seq<byte>)
    requires |user| == LayerCount && |data| >= LabelSize && LabelOverrunAsWritten(layer, data)
    ensures var l := NormalizeLayer(layer);
            var r := LayerUpdateLabelsAsWritten(user, layer, data);
            r[l] == data[..LabelSize] && !IsCString(r[l]) &&
            (l + 1 < LayerCount ==> CText(r[l + 1]) == []) &&
            (forall j :: 0 <= j < LayerCount && j != l && j != l + 1 ==> r[j] == user[j]) &&
            CText(StoredLabel(data)) == data[..LabelSize - 1]
  {
    var l := NormalizeLayer(layer);
    var r := LayerUpdateLabelsAsWritten(user, layer, data);
    assert StrNLen(data, LabelSize) == LabelSize;
    assert r[l] == data[..LabelSize];
    assert StrNLen(r[l], LabelSize) == LabelSize;
    if l + 1 < LayerCount {
      assert r[l + 1][0] == 0;
      assert StrNLen(r[l + 1], |r[l + 1]|) == 0;
    }
    StoredLabelText(data);
  }

  // ---------------------------------------------------------------------
  // The effects of the operations, as functions of the state before them.

  /** The user labels after oled_layer_update(layer, data). */
  function LayerUpdateLabels(user: seq<Label>, layer: byte, data: seq<byte>): (r: seq<Label>)
    requires |user| == LayerCount && |data| >= LabelSize
    ensures |r| == LayerCount
  {
    var l := NormalizeLayer(layer);
    if l >= LayerCount then user else user[l := StoredLabel(data)]
  }

  /** The EEPROM image after oled_layer_update(layer, data): every user label persisted when the layer is valid. */
  function LayerUpdateImage(mem: seq<byte>, user: seq<Label>, layer: byte, data: seq<byte>): (r: seq<byte>)
    requires |mem| == RegionSize && |user| == LayerCount && |data| >= LabelSize
    ensures |r| == RegionSize
  {
    if NormalizeLayer(layer) >= LayerCount then mem else UserImage(mem, LayerUpdateLabels(user, layer, data))
  }

  /** The display calls of oled_layer_update: a forced redraw when the updated layer is the current one. */
  function LayerUpdateEvents(user: seq<Label>, layer: byte, data: seq<byte>, highest: byte): (e: seq<DisplayEvent>)
    requires |user| == LayerCount && |data| >= LabelSize
  {
    var l := NormalizeLayer(layer);
    if l < LayerCount && l == highest then UpdateEvents(LayerUpdateLabels(user, layer, data), l, true) else []
  }

  /** The display calls of set_oled_state(on). */
  function StateEvents(user: seq<Label>, on: bool, highest: byte): (e: seq<DisplayEvent>)
    requires |user| == LayerCount
  {
    if !on then [Clear, Render] else UpdateEvents(user, highest, true)
  }

  /** True when oled_task_user redraws: initialised, display on, and the layer changed since the last tick. */
  predicate TaskRedraws(postInit: bool, on: bool, last: byte, curr: byte)
  {
    postInit && on && curr != last
  }

  /** The display calls of one oled_task_user tick. */
  function TaskEvents(postInit: bool, on: bool, last: byte, user: seq<Label>, curr: byte): (e: seq<DisplayEvent>)
    requires |user| == LayerCount
  {
    if TaskRedraws(postInit, on, last, curr) then [Clear] + UpdateEvents(user, curr, false) else []
  }

  /** g_last_layer after one oled_task_user tick. */
  function TaskLast(postInit: bool, on: bool, last: byte, curr: byte): byte
  {
    if TaskRedraws(postInit, on, last, curr) then curr else last
  }

  // ---------------------------------------------------------------------
  // What the operations promise.

  /**
   * oled_layer_update stores the new label in the addressed layer only, and
   * the label survives a restart: the next boot restores it from EEPROM.
   */
  lemma LayerUpdatePersists(mem: seq<byte>, user: seq<Label>, layer: byte, data: seq<byte>)
    requires |mem| == RegionSize && |user| == LayerCount && |data| >= LabelSize
    requires Current(mem) && NormalizeLayer(layer) < LayerCount
    requires forall i :: 0 <= i < LayerCount ==> StrNCpy(user[i], LabelSize) == user[i] && IsCString(user[i])
    ensures var l := NormalizeLayer(layer);
            var after := LayerUpdateLabels(user, layer, data);
            after[l] == StoredLabel(data) &&
            (forall i :: 0 <= i < LayerCount && i != l ==> after[i] == user[i]) &&
            BootLabels(LayerUpdateImage(mem, user, layer, data)) == after
  {
    var l := NormalizeLayer(layer);
    var after := LayerUpdateLabels(user, layer, data);
    PersistThenBoot(mem, after);
    forall i | 0 <= i < LayerCount ensures CanonicalAll(after)[i] == after[i] {
      CanonicalOfCString(after[i]);
    }
  }

  /** An invalid layer leaves labels, EEPROM and display alone. */
  lemma LayerUpdateInvalidLayer(mem: seq<byte>, user: seq<Label>, layer: byte, data: seq<byte>, highest: byte)
    requires |mem| == RegionSize && |user| == LayerCount && |data| >= LabelSize
    requires NormalizeLayer(layer) >= LayerCount
    ensures LayerUpdateLabels(user, layer, data) == user
    ensures LayerUpdateImage(mem, user, layer, data) == mem
    ensures LayerUpdateEvents(user, layer, data, highest) == []
  {
  }

  /** A redraw after a label update shows the new text. */
  lemma LayerUpdateShowsText(user: seq<Label>, layer: byte, data: seq<byte>, highest: byte)
    requires |user| == LayerCount && |data| >= LabelSize
    requires NormalizeLayer(layer) < LayerCount && NormalizeLayer(layer) == highest
    ensures var e := LayerUpdateEvents(user, layer, data, highest);
            |e| == 4 && e[2] == Write(CText(StoredLabel(data))) && e[3] == Render
  {
  }

  /** After a tick, further ticks on the same layer draw nothing until the layer changes. */
  lemma TaskIdempotent(postInit: bool, on: bool, last: byte, user: seq<Label>, curr: byte)
    requires |user| == LayerCount
    ensures var last' := TaskLast(postInit, on, last, curr);
            TaskEvents(postInit, on, last', user, curr) == [] && TaskLast(postInit, on, last', curr) == last'
  {
  }

  /** The first tick after initialisation draws the current layer's label: g_last_layer starts out as no layer. */
  lemma FirstTickDraws(user: seq<Label>, curr: byte)
    requires |user| == LayerCount && curr < LayerCount
    ensures TaskEvents(true, true, LayerCount, user, curr) ==
            [Clear, Clear, SetCursor(0, 0), Write(CText(user[curr]))]
    ensures TaskLast(true, true, LayerCount, curr) == curr
  {
  }

  /** Before initialisation completes, or while the display is off, ticks draw nothing and remember nothing. */
  lemma TaskQuietWhenIdle(postInit: bool, on: bool, last: byte, user: seq<Label>, curr: byte)
    requires |user| == LayerCount && (!postInit || !on)
    ensures TaskEvents(postInit, on, last, user, curr) == [] && TaskLast(postInit, on, last, curr) == last
  {
  }

  /** A tick on an invalid layer clears the display and writes nothing. */
  lemma TaskInvalidLayerBlank(last: byte, user: seq<Label>, curr: byte)
    requires |user| == LayerCount && curr >= LayerCount && curr != last
    ensures TaskEvents(true, true, last, user, curr) == [Clear]
  {
  }

  /** Turning the display off blanks it; turning it on draws the current layer at once. */
  lemma StateEventsShape(user: seq<Label>, highest: byte)
    requires |user| == LayerCount
    ensures StateEvents(user, false, highest) == [Clear, Render]
    ensures highest < LayerCount ==>
              StateEvents(user, true, highest) == [Clear, SetCursor(0, 0), Write(CText(user[highest])), Render]
  {
  }

  // ---------------------------------------------------------------------
  // The operations.

  /**
   * oled_layer_update(layer, data, length): store the label, persist every
   * user label, and redraw at once when the layer is showing. data is the
   * transfer buffer, at least a label long; length is unused.
   */
  method OledLayerUpdate(o: Oled, p: Platform, layer: byte, data: seq<byte>, length: byte)
    requires o.Valid() && p.Valid() && |data| >= LabelSize
    modifies o`user, p`eeprom, p`display
    ensures o.Valid() && p.Valid()
    ensures o.user == LayerUpdateLabels(old(o.user), layer, data)
    ensures p.eeprom == LayerUpdateImage(old(p.eeprom), old(o.user), layer, data)
    ensures p.display == old(p.display) + LayerUpdateEvents(old(o.user), layer, data, p.layer)
  {
    var l := layer;
    if l >= '0' as int {
      l := l - '0' as int;
    }
    if l >= LayerCount {
      return;
    }
    var text := StrNCpy(data, LabelSize);
    var k := StrNLen(data, LabelSize);
    text := text[if k < LabelSize then k else LabelSize - 1 := 0];
    assert text == StoredLabel(data) by {
      forall i | 0 <= i < LabelSize ensures text[i] == Canonical(data)[i] {
        CanonicalAt(data, i);
      }
    }
    o.user := o.user[l := text];
    PersistUserLayerLabels(o, p);
    if l == p.layer {
      o.Update(p, l, true);
    }
  }

  /** oled_task_user: redraw when the highest layer changed since the last tick; always returns true. */
  method OledTaskUser(kb: Keyboard, o: Oled, p: Platform) returns (r: bool)
    requires o.Valid()
    modifies o`lastLayer, p`display
    ensures r
    ensures p.display == old(p.display) + TaskEvents(kb.postInit, o.on, old(o.lastLayer), o.user, p.layer)
    ensures o.lastLayer == TaskLast(kb.postInit, o.on, old(o.lastLayer), p.layer)
  {
    if !kb.IsPostInit() || !o.on {
      return true;
    }
    var curr := p.layer;
    if curr == o.lastLayer {
      return true;
    }
    p.OledClear();
    o.lastLayer := curr;
    if curr >= LayerCount {
      return true;
    }
    o.Update(p, curr, false);
    return true;
  }

  /** set_oled_state(on): remember the flag, then blank the display or draw the current layer. */
  method SetOledState(o: Oled, p: Platform, on: bool)
    requires o.Valid()
    modifies o`on, p`display
    ensures o.on == on
    ensures p.display == old(p.display) + StateEvents(o.user, on, p.layer)
  {
    o.on := on;
    if !on {
      p.OledClear();
      p.OledRender();
    } else {
      o.Update(p, p.layer, true);
    }
  }
}
