// persistence.c with EEPROM_CFG defined: the versioned EEPROM layout, the
// persist/restore/void operations on the system and user labels, and the
// boot-time initialisation or migration of the region.
//
// Each operation is a method over the label registry and the platform's
// EEPROM image, proved equal to a function of the state it starts from; the
// lemmas below state what those functions promise.

module Persistence {
  import opened Config
  import opened CStrings
  import opened Qmk
  import opened LayerText

  /** EEPROM_MAGIC_WORD. */
  const MagicWord: u16 := 0xdead
  /** PERSISTENCE_VERSION. */
  const Version: u16 := 666
  /** EEPROM_OLED_VALID_CFG / EEPROM_OLED_INVALID_CFG. */
  const ValidCfg: byte := 0x55
  const InvalidCfg: byte := 0xff

  /** Offsets from EEPROM_BASE_ADDR. */
  const MagicAddr: nat := 0
  const VersionAddr: nat := 2
  const RestoreAddr: nat := 4
  /** The restore blob reserves room for 8 labels although LAYER_COUNT are written. */
  const RestoreSlots: nat := 8
  /** EEPROM_OLED_CFG_ADDR: the one-byte struct oled_cfg header. */
  const CfgAddr: nat := RestoreAddr + RestoreSlots * LabelSize
  /** The user labels follow the header. */
  const UserAddr: nat := CfgAddr + 1
  const LayoutEnd: nat := UserAddr + LayerCount * LabelSize

  function SlotAddr(base: nat, i: nat): nat
  {
    base + i * LabelSize
  }

  /** The two bytes a uint16_t occupies in EEPROM (the AVR target is little-endian). */
  function EncodeU16(v: u16): (b: seq<byte>)
    ensures |b| == 2
  {
    [v % 256, v / 256]
  }

  function DecodeU16(lo: byte, hi: byte): u16
  {
    lo + 256 * hi
  }

  /** The layout: magic at +0, version at +2, restore slot i at +4+87i, header at +700, user label i at +701+87i, all inside the reserved 8 KiB. */
  lemma LayoutOffsets(i: nat)
    requires i < LayerCount
    ensures MagicAddr == 0 && VersionAddr == 2 && CfgAddr == 700 && UserAddr == 701
    ensures SlotAddr(RestoreAddr, i) == 4 + 87 * i && SlotAddr(UserAddr, i) == 701 + 87 * i
    ensures SlotAddr(RestoreAddr, i) + LabelSize <= CfgAddr
    ensures LayoutEnd == 1049 && LayoutEnd <= RegionSize
  {
  }

  /** A u16 field reads back what was written into it. */
  lemma DecodeEncode(v: u16)
    ensures DecodeU16(EncodeU16(v)[0], EncodeU16(v)[1]) == v
  {
  }

  // ---------------------------------------------------------------------
  // The EEPROM image as a function of the operations applied to it.

  /** The image after writing labels[j] into slot j of the block at base, for every j. */
  function WriteSlots(mem: seq<byte>, base: nat, labels: seq<Label>): (r: seq<byte>)
    requires base + |labels| * LabelSize <= |mem|
    ensures |r| == |mem|
    decreases |labels|
  {
    if labels == [] then mem
    else
      var n := |labels| - 1;
      Written(WriteSlots(mem, base, labels[..n]), SlotAddr(base, n), labels[n])
  }

  /** The LabelSize bytes of slot i of the block at base. */
  function Slot(mem: seq<byte>, base: nat, i: nat): seq<byte>
    requires SlotAddr(base, i) + LabelSize <= |mem|
  {
    mem[SlotAddr(base, i)..SlotAddr(base, i) + LabelSize]
  }

  /** What strncpy leaves in the user labels after reading each of the LAYER_COUNT slots at base. */
  function LoadSlots(mem: seq<byte>, base: nat): (ls: seq<Label>)
    requires base + LayerCount * LabelSize <= |mem|
    ensures |ls| == LayerCount
  {
    seq(LayerCount, i requires 0 <= i < LayerCount => StrNCpy(Slot(mem, base, i), LabelSize))
  }

  /** Each label as persisted: strncpy into a buffer, then a NUL in its last byte. */
  function CanonicalAll(ls: seq<Label>): (r: seq<Label>)
    ensures |r| == |ls|
    ensures forall i :: 0 <= i < |ls| ==> r[i] == Canonical(ls[i])
  {
    seq(|ls|, i requires 0 <= i < |ls| => Canonical(ls[i]))
  }

  /** recover_from_in_mem_system_layer_labels: the system labels copied into the user labels. */
  function Recovered(): (ls: seq<Label>)
    ensures |ls| == LayerCount
  {
    seq(LayerCount, i requires 0 <= i < LayerCount => StrNCpy(SystemLabels[i], LabelSize))
  }

  function IsInit(mem: seq<byte>): bool
    requires |mem| == RegionSize
  {
    DecodeU16(mem[MagicAddr], mem[MagicAddr + 1]) == MagicWord
  }

  function StoredVersion(mem: seq<byte>): u16
    requires |mem| == RegionSize
  {
    DecodeU16(mem[VersionAddr], mem[VersionAddr + 1])
  }

  /** eeprom_persist_system_layers. */
  function SystemImage(mem: seq<byte>): (r: seq<byte>)
    requires |mem| == RegionSize
    ensures |r| == RegionSize
  {
    WriteSlots(mem, RestoreAddr, CanonicalAll(SystemLabels))
  }

  /** eeprom_restore_system_layers. */
  function RestoredSystem(mem: seq<byte>): (ls: seq<Label>)
    requires |mem| == RegionSize
    ensures |ls| == LayerCount
  {
    LoadSlots(mem, RestoreAddr)
  }

  /** eeprom_persist_user_layers. */
  function UserImage(mem: seq<byte>, user: seq<Label>): (r: seq<byte>)
    requires |mem| == RegionSize && |user| == LayerCount
    ensures |r| == RegionSize
  {
    WriteSlots(Written(mem, CfgAddr, [ValidCfg]), UserAddr, CanonicalAll(user))
  }

  /** eeprom_clear_user_layers. */
  function VoidedImage(mem: seq<byte>): (r: seq<byte>)
    requires |mem| == RegionSize
    ensures |r| == RegionSize
  {
    Written(mem, CfgAddr, [InvalidCfg])
  }

  /** eeprom_restore_user_layers: the user labels after it, given those before. */
  function RestoredUser(mem: seq<byte>, user: seq<Label>): (ls: seq<Label>)
    requires |mem| == RegionSize && |user| == LayerCount
    ensures |ls| == LayerCount
  {
    if mem[CfgAddr] != ValidCfg then user else LoadSlots(mem, UserAddr)
  }

  /** eeprom_config_init(version). */
  function InitImage(mem: seq<byte>, version: u16): (r: seq<byte>)
    requires |mem| == RegionSize
    ensures |r| == RegionSize
  {
    SystemImage(Written(mem, MagicAddr, EncodeU16(MagicWord) + EncodeU16(version)))
  }

  /** True when persistence_init finds an initialised region of the current version. */
  predicate Current(mem: seq<byte>)
    requires |mem| == RegionSize
  {
    IsInit(mem) && StoredVersion(mem) == Version
  }

  /** persistence_init: the user labels it leaves. */
  function BootLabels(mem: seq<byte>): (ls: seq<Label>)
    requires |mem| == RegionSize
    ensures |ls| == LayerCount
  {
    if Current(mem) then RestoredUser(mem, Recovered()) else Recovered()
  }

  /** persistence_init: the EEPROM image it leaves. */
  function BootImage(mem: seq<byte>): (r: seq<byte>)
    requires |mem| == RegionSize
    ensures |r| == RegionSize
  {
    if Current(mem) then mem else InitImage(mem, Version)
  }

  // ---------------------------------------------------------------------
  // Lemmas about the block writes.

  /** Writing slots leaves every byte outside the written block as it was. */
  lemma {:induction false} WriteSlotsOutside(mem: seq<byte>, base: nat, labels: seq<Label>, i: nat)
    requires base + |labels| * LabelSize <= |mem|
    requires i < |mem| && !(base <= i < base + |labels| * LabelSize)
    ensures WriteSlots(mem, base, labels)[i] == mem[i]
  {
    if labels != [] {
      var n := |labels| - 1;
      SlotInBlock(base, n, |labels|);
      WriteSlotsOutside(mem, base, labels[..n], i);
      WrittenAt(WriteSlots(mem, base, labels[..n]), SlotAddr(base, n), labels[n], i);
    }
  }

  /** Slot i of a block of n slots lies inside the block. */
  lemma SlotInBlock(base: nat, i: nat, n: nat)
    requires i < n
    ensures base <= SlotAddr(base, i)
    ensures SlotAddr(base, i) + LabelSize == SlotAddr(base, i + 1) <= base + n * LabelSize
  {
    assert n * LabelSize == (i + 1) * LabelSize + (n - i - 1) * LabelSize;
  }

  /** Writing one more slot extends the block write by one label. */
  lemma WriteSlotsStep(mem: seq<byte>, base: nat, labels: seq<Label>, i: nat)
    requires base + |labels| * LabelSize <= |mem| && i < |labels|
    ensures WriteSlots(mem, base, labels[..i + 1]) ==
            Written(WriteSlots(mem, base, labels[..i]), SlotAddr(base, i), labels[i])
  {
    SlotInBlock(base, i, |labels|);
    assert labels[..i + 1][..i] == labels[..i];
  }

  /** Slot j of the written block holds labels[j]. */
  lemma {:induction false} WriteSlotsSlot(mem: seq<byte>, base: nat, labels: seq<Label>, j: nat)
    requires base + |labels| * LabelSize <= |mem| && j < |labels|
    ensures Slot(WriteSlots(mem, base, labels), base, j) == labels[j]
  {
    var n := |labels| - 1;
    var prev := WriteSlots(mem, base, labels[..n]);
    var r := WriteSlots(mem, base, labels);
    var a := SlotAddr(base, j);
    SlotInBlock(base, n, |labels|);
    if j < n {
      WriteSlotsSlot(mem, base, labels[..n], j);
      SlotInBlock(base, j, n);
      forall k | a <= k < a + LabelSize ensures r[k] == prev[k] {
        WrittenAt(prev, SlotAddr(base, n), labels[n], k);
      }
      assert Slot(r, base, j) == Slot(prev, base, j);
    }
  }

  /** The user labels persisted into an image are what a later restore reads back. */
  lemma LoadWrittenSlots(mem: seq<byte>, base: nat, labels: seq<Label>)
    requires base + LayerCount * LabelSize <= |mem| && |labels| == LayerCount
    ensures LoadSlots(WriteSlots(mem, base, labels), base) ==
            seq(LayerCount, i requires 0 <= i < LayerCount => StrNCpy(labels[i], LabelSize))
  {
    var w := WriteSlots(mem, base, labels);
    forall i | 0 <= i < LayerCount
      ensures LoadSlots(w, base)[i] == StrNCpy(labels[i], LabelSize)
    {
      WriteSlotsSlot(mem, base, labels, i);
    }
  }

  // ---------------------------------------------------------------------
  // What the persistence operations promise.

  /**
   * Round trip: after eeprom_persist_user_layers, eeprom_restore_user_layers
   * yields every user label as persisted (strncpy'd and NUL-terminated at its
   * last byte), whatever labels were in memory before; a label that already
   * ends in a NUL comes back unchanged.
   */
  lemma PersistRestoreRoundTrip(mem: seq<byte>, user: seq<Label>, before: seq<Label>)
    requires |mem| == RegionSize && |user| == LayerCount && |before| == LayerCount
    ensures RestoredUser(UserImage(mem, user), before) == CanonicalAll(user)
    ensures (forall i :: 0 <= i < LayerCount ==> Canonical(user[i]) == user[i]) ==>
              RestoredUser(UserImage(mem, user), before) == user
  {
    var m1 := Written(mem, CfgAddr, [ValidCfg]);
    var img := UserImage(mem, user);
    assert m1[CfgAddr] == ValidCfg;
    WriteSlotsOutside(m1, UserAddr, CanonicalAll(user), CfgAddr);
    assert img[CfgAddr] == ValidCfg;
    CanonicalBlockReadsBack(m1, UserAddr, user);
  }

  /** Persisting user labels writes only from the header on: magic, version and the restore blob stay. */
  lemma PersistUserKeepsPrefix(mem: seq<byte>, user: seq<Label>)
    requires |mem| == RegionSize && |user| == LayerCount
    ensures UserImage(mem, user)[..CfgAddr] == mem[..CfgAddr]
    ensures IsInit(UserImage(mem, user)) == IsInit(mem)
    ensures StoredVersion(UserImage(mem, user)) == StoredVersion(mem)
    ensures RestoredSystem(UserImage(mem, user)) == RestoredSystem(mem)
  {
    var m1 := Written(mem, CfgAddr, [ValidCfg]);
    var img := UserImage(mem, user);
    forall i | 0 <= i < CfgAddr ensures img[i] == mem[i] {
      WriteSlotsOutside(m1, UserAddr, CanonicalAll(user), i);
    }
    assert img[..CfgAddr] == mem[..CfgAddr];
    forall i | 0 <= i < LayerCount ensures Slot(img, RestoreAddr, i) == Slot(mem, RestoreAddr, i) {
      LayoutOffsets(i);
      var a := SlotAddr(RestoreAddr, i);
      forall j | 0 <= j < LabelSize ensures Slot(img, RestoreAddr, i)[j] == Slot(mem, RestoreAddr, i)[j] {
        assert img[a + j] == mem[a + j];
      }
    }
    assert RestoredSystem(img) == RestoredSystem(mem);
  }

  /**
   * eeprom_clear_user_layers changes only the header byte, to 0xff, and a
   * later restore then leaves the user labels alone although the label bytes
   * are still in place.
   */
  lemma VoidOnlyHeader(mem: seq<byte>, user: seq<Label>)
    requires |mem| == RegionSize && |user| == LayerCount
    ensures VoidedImage(mem)[CfgAddr] == InvalidCfg
    ensures forall i :: 0 <= i < RegionSize && i != CfgAddr ==> VoidedImage(mem)[i] == mem[i]
    ensures RestoredUser(VoidedImage(mem), user) == user
  {
  }

  /** The voided region keeps its label bytes, so the stale labels are still there to read. */
  lemma VoidKeepsStaleLabels(mem: seq<byte>)
    requires |mem| == RegionSize
    ensures LoadSlots(VoidedImage(mem), UserAddr) == LoadSlots(mem, UserAddr)
  {
    var v := VoidedImage(mem);
    forall i | 0 <= i < LayerCount ensures Slot(v, UserAddr, i) == Slot(mem, UserAddr, i) {
      var a := SlotAddr(UserAddr, i);
      SlotInBlock(UserAddr, i, LayerCount);
      forall k | a <= k < a + LabelSize ensures v[k] == mem[k] {
        WrittenAt(mem, CfgAddr, [InvalidCfg], k);
      }
    }
  }

  /** Every system label is a C string within its buffer, so its strncpy copy is its persisted form. */
  lemma SystemLabelsAreCStrings()
    ensures |SystemLabels| == LayerCount
    ensures forall i :: 0 <= i < LayerCount ==> IsCString(SystemLabels[i])
    ensures Recovered() == CanonicalAll(SystemLabels)
  {
    forall i | 0 <= i < LayerCount ensures IsCString(SystemLabels[i]) {
      if i == 0 {
      } else if i == 1 {
      } else if i == 2 {
      } else {
      }
    }
    forall i | 0 <= i < LayerCount ensures Recovered()[i] == CanonicalAll(SystemLabels)[i] {
      CanonicalOfCString(SystemLabels[i]);
    }
  }

  /**
   * Migration: when magic or version do not match, persistence_init writes the
   * magic word and the current version, snapshots the system labels into the
   * restore blob, leaves the header byte and the user label bytes untouched,
   * and keeps the system labels in memory.
   */
  lemma BootOnMismatch(mem: seq<byte>)
    requires |mem| == RegionSize && !Current(mem)
    ensures Current(BootImage(mem))
    ensures RestoredSystem(BootImage(mem)) == Recovered()
    ensures forall i :: CfgAddr <= i < RegionSize ==> BootImage(mem)[i] == mem[i]
    ensures BootLabels(mem) == Recovered()
  {
    InitImageHeader(mem, Version);
    InitImageBlob(mem, Version);
  }

  /** eeprom_config_init stamps magic and version and writes nothing from the header byte on. */
  lemma InitImageHeader(mem: seq<byte>, version: u16)
    requires |mem| == RegionSize
    ensures IsInit(InitImage(mem, version)) && StoredVersion(InitImage(mem, version)) == version
    ensures forall i :: CfgAddr <= i < RegionSize ==> InitImage(mem, version)[i] == mem[i]
  {
    var stamp := EncodeU16(MagicWord) + EncodeU16(version);
    var m1 := Written(mem, MagicAddr, stamp);
    var img := InitImage(mem, version);
    var blob := CanonicalAll(SystemLabels);
    assert forall i | 0 <= i < RegionSize && !(RestoreAddr <= i < RestoreAddr + LayerCount * LabelSize) :: img[i] == m1[i] by {
      forall i | 0 <= i < RegionSize && !(RestoreAddr <= i < RestoreAddr + LayerCount * LabelSize)
        ensures img[i] == m1[i]
      {
        WriteSlotsOutside(m1, RestoreAddr, blob, i);
      }
    }
    assert forall i | 0 <= i < 4 :: img[i] == stamp[i] by {
      forall i | 0 <= i < 4 ensures img[i] == stamp[i] {
        WrittenAt(mem, MagicAddr, stamp, i);
        LayoutOffsets(0);
      }
    }
    assert IsInit(img) && StoredVersion(img) == version by {
      DecodeEncode(MagicWord);
      DecodeEncode(version);
    }
    forall i | CfgAddr <= i < RegionSize ensures img[i] == mem[i] {
      LayoutOffsets(0);
      WrittenAt(mem, MagicAddr, stamp, i);
    }
  }

  /** eeprom_config_init snapshots the system labels so that a restore yields them as recovered from memory. */
  lemma InitImageBlob(mem: seq<byte>, version: u16)
    requires |mem| == RegionSize
    ensures RestoredSystem(InitImage(mem, version)) == Recovered()
  {
    var m1 := Written(mem, MagicAddr, EncodeU16(MagicWord) + EncodeU16(version));
    CanonicalBlockReadsBack(m1, RestoreAddr, SystemLabels);
    SystemLabelsAreCStrings();
  }

  /** Reading back a block of canonical copies gives the copies themselves. */
  lemma CanonicalBlockReadsBack(mem: seq<byte>, base: nat, labels: seq<Label>)
    requires base + LayerCount * LabelSize <= |mem| && |labels| == LayerCount
    ensures LoadSlots(WriteSlots(mem, base, CanonicalAll(labels)), base) == CanonicalAll(labels)
  {
    var blob := CanonicalAll(labels);
    var got := LoadSlots(WriteSlots(mem, base, blob), base);
    assert forall i | 0 <= i < LayerCount :: got[i] == StrNCpy(blob[i], LabelSize) by {
      LoadWrittenSlots(mem, base, blob);
    }
    forall i | 0 <= i < LayerCount ensures got[i] == blob[i] {
      CanonicalStable(labels[i]);
    }
  }

  /**
   * A region of the current version is left as it is, and the user labels are
   * loaded from it exactly when the header byte is 0x55; otherwise they stay
   * at the system defaults.
   */
  lemma BootOnMatch(mem: seq<byte>)
    requires |mem| == RegionSize && Current(mem)
    ensures BootImage(mem) == mem
    ensures mem[CfgAddr] == ValidCfg ==> BootLabels(mem) == LoadSlots(mem, UserAddr)
    ensures mem[CfgAddr] != ValidCfg ==> BootLabels(mem) == Recovered()
  {
  }

  /** Persisted user labels survive a restart: the next boot restores each as persisted. */
  lemma PersistThenBoot(mem: seq<byte>, user: seq<Label>)
    requires |mem| == RegionSize && |user| == LayerCount && Current(mem)
    ensures BootLabels(UserImage(mem, user)) == CanonicalAll(user)
    ensures BootImage(UserImage(mem, user)) == UserImage(mem, user)
  {
    PersistUserKeepsPrefix(mem, user);
    PersistRestoreRoundTrip(mem, user, Recovered());
  }

  /**
   * reset_layer_labels after an initialisation brings back the factory text:
   * the restore blob holds the system labels as snapshotted.
   */
  lemma ResetAfterInit(mem: seq<byte>)
    requires |mem| == RegionSize && !Current(mem)
    ensures RestoredSystem(BootImage(mem)) == Recovered()
    ensures RestoredSystem(VoidedImage(BootImage(mem))) == Recovered()
  {
    BootOnMismatch(mem);
    VoidKeepsSystemLabels(BootImage(mem));
  }

  /** Voiding the user labels leaves the restore blob alone. */
  lemma VoidKeepsSystemLabels(mem: seq<byte>)
    requires |mem| == RegionSize
    ensures RestoredSystem(VoidedImage(mem)) == RestoredSystem(mem)
  {
    var v := VoidedImage(mem);
    forall i | 0 <= i < LayerCount ensures Slot(v, RestoreAddr, i) == Slot(mem, RestoreAddr, i) {
      var a := SlotAddr(RestoreAddr, i);
      SlotInBlock(RestoreAddr, i, LayerCount);
      forall k | a <= k < a + LabelSize ensures v[k] == mem[k] {
        WrittenAt(mem, CfgAddr, [InvalidCfg], k);
      }
    }
  }

  // ---------------------------------------------------------------------
  // The operations, as persistence.c performs them.

  method EepromIsInit(p: Platform) returns (init: bool)
    requires p.Valid()
    ensures init == IsInit(p.eeprom)
  {
    var magic := p.ReadBlock(MagicAddr, 2);
    init := DecodeU16(magic[0], magic[1]) == MagicWord;
  }

  method EepromVersion(p: Platform) returns (v: u16)
    requires p.Valid()
    ensures v == StoredVersion(p.eeprom)
  {
    var b := p.ReadBlock(VersionAddr, 2);
    v := DecodeU16(b[0], b[1]);
  }

  /**
   * The loop persist_system and persist_user share: each label is strncpy'd
   * into a buffer, NUL-terminated at its last byte and written to the next
   * slot of the block at base.
   */
  method WriteLabelSlots(p: Platform, base: nat, labels: seq<Label>)
    requires p.Valid() && base + |labels| * LabelSize <= RegionSize
    modifies p`eeprom
    ensures p.Valid() && p.eeprom == WriteSlots(old(p.eeprom), base, CanonicalAll(labels))
  {
    ghost var blob := CanonicalAll(labels);
    var addr := base;
    var i := 0;
    while i < |labels|
      invariant 0 <= i <= |labels| && addr == SlotAddr(base, i)
      invariant p.Valid()
      invariant p.eeprom == WriteSlots(old(p.eeprom), base, blob[..i])
    {
      var buffer := StrNCpy(labels[i], LabelSize);
      buffer := Terminated(buffer);
      SlotInBlock(base, i, |labels|);
      p.WriteBlock(addr, buffer);
      assert buffer == blob[i];
      WriteSlotsStep(old(p.eeprom), base, blob, i);
      addr := addr + LabelSize;
      i := i + 1;
    }
    assert blob[..i] == blob;
  }

  /** Snapshot the system labels into the restore blob, one slot per layer. */
  method EepromPersistSystemLayers(p: Platform)
    requires p.Valid()
    modifies p`eeprom
    ensures p.Valid() && p.eeprom == SystemImage(old(p.eeprom))
  {
    WriteLabelSlots(p, RestoreAddr, SystemLabels);
  }

  /** Load the restore blob into the user labels. */
  method EepromRestoreSystemLayers(o: Oled, p: Platform)
    requires o.Valid() && p.Valid()
    modifies o`user
    ensures o.Valid() && o.user == RestoredSystem(p.eeprom)
  {
    var addr := RestoreAddr;
    var i := 0;
    while i < LayerCount
      invariant 0 <= i <= LayerCount && addr == SlotAddr(RestoreAddr, i)
      invariant o.Valid()
      invariant forall j :: 0 <= j < i ==> o.user[j] == RestoredSystem(p.eeprom)[j]
    {
      SlotInBlock(RestoreAddr, i, LayerCount);
      var buffer := p.ReadBlock(addr, LabelSize);
      assert StrNCpy(buffer, LabelSize) == RestoredSystem(p.eeprom)[i];
      o.user := o.user[i := StrNCpy(buffer, LabelSize)];
      addr := addr + LabelSize;
      i := i + 1;
    }
  }

  /** Write the valid header and every user label. */
  method EepromPersistUserLayers(o: Oled, p: Platform)
    requires o.Valid() && p.Valid()
    modifies p`eeprom
    ensures p.Valid() && p.eeprom == UserImage(old(p.eeprom), o.user)
  {
    var addr := CfgAddr;
    p.WriteBlock(addr, [ValidCfg]);
    addr := addr + 1;
    WriteLabelSlots(p, addr, o.user);
  }

  /** Void the persisted user labels by overwriting the header byte. */
  method EepromClearUserLayers(p: Platform)
    requires p.Valid()
    modifies p`eeprom
    ensures p.Valid() && p.eeprom == VoidedImage(old(p.eeprom))
  {
    p.WriteBlock(CfgAddr, [InvalidCfg]);
  }

  /** Load the user labels when the header says they are valid. */
  method EepromRestoreUserLayers(o: Oled, p: Platform)
    requires o.Valid() && p.Valid()
    modifies o`user
    ensures o.Valid() && o.user == RestoredUser(p.eeprom, old(o.user))
  {
    var addr := CfgAddr;
    var config := p.ReadBlock(addr, 1);
    if config[0] != ValidCfg {
      return;
    }
    addr := addr + 1;
    var i := 0;
    while i < LayerCount
      invariant 0 <= i <= LayerCount && addr == SlotAddr(UserAddr, i)
      invariant o.Valid()
      invariant forall j :: 0 <= j < i ==> o.user[j] == LoadSlots(p.eeprom, UserAddr)[j]
    {
      SlotInBlock(UserAddr, i, LayerCount);
      var buffer := p.ReadBlock(addr, LabelSize);
      assert StrNCpy(buffer, LabelSize) == LoadSlots(p.eeprom, UserAddr)[i];
      o.user := o.user[i := StrNCpy(buffer, LabelSize)];
      addr := addr + LabelSize;
      i := i + 1;
    }
  }

  /** Write magic and version, then snapshot the system labels. */
  method EepromConfigInit(p: Platform, version: u16)
    requires p.Valid()
    modifies p`eeprom
    ensures p.Valid() && p.eeprom == InitImage(old(p.eeprom), version)
  {
    p.WriteBlock(MagicAddr, EncodeU16(MagicWord) + EncodeU16(version));
    var written := EepromIsInit(p);
    EepromPersistSystemLayers(p);
  }

  /** persist_user_layer_labels. */
  method PersistUserLayerLabels(o: Oled, p: Platform)
    requires o.Valid() && p.Valid()
    modifies p`eeprom
    ensures p.Valid() && p.eeprom == UserImage(old(p.eeprom), o.user)
  {
    EepromPersistUserLayers(o, p);
  }

  method RecoverFromInMemSystemLayerLabels(o: Oled)
    requires o.Valid()
    modifies o`user
    ensures o.Valid() && o.user == Recovered()
  {
    var i := 0;
    while i < LayerCount
      invariant 0 <= i <= LayerCount
      invariant o.Valid()
      invariant forall j :: 0 <= j < i ==> o.user[j] == Recovered()[j]
    {
      o.user := o.user[i := StrNCpy(SystemLabels[i], LabelSize)];
      i := i + 1;
    }
  }

  /** restore_user_layer_labels: restore, then redraw the current layer. */
  method RestoreUserLayerLabels(o: Oled, p: Platform)
    requires o.Valid() && p.Valid()
    modifies o`user, p`display
    ensures o.Valid() && o.user == RestoredUser(p.eeprom, old(o.user))
    ensures p.display == old(p.display) + UpdateEvents(o.user, p.layer, true)
  {
    EepromRestoreUserLayers(o, p);
    o.Update(p, p.layer, true);
  }

  /** reset_layer_labels: load the restore blob, redraw, then void the user labels. */
  method ResetLayerLabels(o: Oled, p: Platform)
    requires o.Valid() && p.Valid()
    modifies o`user, p`display, p`eeprom
    ensures o.Valid() && p.Valid()
    ensures o.user == RestoredSystem(old(p.eeprom))
    ensures p.display == old(p.display) + UpdateEvents(o.user, p.layer, true)
    ensures p.eeprom == VoidedImage(old(p.eeprom))
  {
    EepromRestoreSystemLayers(o, p);
    o.Update(p, p.layer, true);
    EepromClearUserLayers(p);
  }

  method PersistenceInit(o: Oled, p: Platform)
    requires o.Valid() && p.Valid()
    modifies o`user, p`eeprom
    ensures o.Valid() && p.Valid()
    ensures o.user == BootLabels(old(p.eeprom))
    ensures p.eeprom == BootImage(old(p.eeprom))
  {
    RecoverFromInMemSystemLayerLabels(o);
    var init := EepromIsInit(p);
    if init {
      var version := EepromVersion(p);
      if version != Version {
        EepromConfigInit(p, Version);
      } else {
        EepromRestoreUserLayers(o, p);
      }
    } else {
      EepromConfigInit(p, Version);
    }
  }
}
