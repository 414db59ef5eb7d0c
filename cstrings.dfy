// The C string primitives the firmware relies on (strnlen, strncpy and the
// "write a NUL into the last byte" idiom), over byte sequences.

module CStrings {
  import opened Config

  /** n NUL bytes. */
  function Zeros(n: nat): (z: seq<byte>)
    ensures |z| == n
    ensures forall i :: 0 <= i < n ==> z[i] == 0
  {
    seq(n, _ => 0)
  }

  /** True when s holds no NUL byte. */
  predicate NulFree(s: seq<byte>)
  {
    forall i :: 0 <= i < |s| ==> s[i] != 0
  }

  /** strnlen(s, n): the index of the first NUL among the first n bytes of s, or n if there is none. */
  function StrNLen(s: seq<byte>, n: nat): (k: nat)
    requires n <= |s|
    ensures k <= n
    ensures forall i :: 0 <= i < k ==> s[i] != 0
    ensures k < n ==> s[k] == 0
  {
    if n == 0 || s[0] == 0 then 0 else 1 + StrNLen(s[1..], n - 1)
  }

  /**
   * strncpy(dst, src, n): the n bytes it stores into dst. It copies src byte by
   * byte up to the first NUL and pads the rest of the n bytes with NULs.
   */
  function StrNCpy(src: seq<byte>, n: nat): (r: seq<byte>)
    requires n <= |src|
    ensures |r| == n
    ensures forall i :: 0 <= i < StrNLen(src, n) ==> r[i] == src[i]
    ensures forall i :: StrNLen(src, n) <= i < n ==> r[i] == 0
  {
    if n == 0 then []
    else if src[0] == 0 then Zeros(n)
    else [src[0]] + StrNCpy(src[1..], n - 1)
  }

  /** buf[sizeof(buf) - 1] = '\0': force a NUL into the last byte. */
  function Terminated(b: seq<byte>): (r: seq<byte>)
    requires |b| > 0
    ensures |r| == |b| && r[|b| - 1] == 0
    ensures r[..|b| - 1] == b[..|b| - 1]
  {
    b[|b| - 1 := 0]
  }

  /** A label buffer that holds a NUL: its text ends inside the buffer. */
  predicate IsCString(b: seq<byte>)
    requires |b| >= LabelSize
  {
    StrNLen(b, LabelSize) < LabelSize
  }

  /** The C string held in a buffer: its bytes before the first NUL. */
  function CText(b: seq<byte>): (t: seq<byte>)
    ensures NulFree(t) && |t| <= |b|
    ensures t == b[..|t|]
    ensures |t| < |b| ==> b[|t|] == 0
  {
    b[..StrNLen(b, |b|)]
  }

  /**
   * The label every well-behaved copy in the firmware produces: strncpy into an
   * oled_text_t, then a NUL in its last byte.
   */
  function Canonical(b: seq<byte>): (r: Label)
    requires |b| >= LabelSize
  {
    Terminated(StrNCpy(b, LabelSize))
  }

  /** A label buffer holding the C string t, NUL-padded. */
  function FromText(t: seq<byte>): (r: Label)
    requires |t| < LabelSize
    ensures r[..|t|] == t && r[|t|] == 0
    ensures IsCString(r)
  {
    t + Zeros(LabelSize - |t|)
  }

  /** The characters a canonical copy keeps: those before the first NUL, at most LabelSize - 1 of them. */
  lemma CanonicalText(b: seq<byte>)
    requires |b| >= LabelSize
    ensures var k := StrNLen(b, LabelSize);
            Canonical(b) == FromText(b[..if k < LabelSize then k else LabelSize - 1])
  {
    var k := StrNLen(b, LabelSize);
    var m := if k < LabelSize then k else LabelSize - 1;
    var c := Canonical(b);
    var f := FromText(b[..m]);
    forall i | 0 <= i < LabelSize ensures c[i] == if i < m then b[i] else 0 {
      CanonicalAt(b, i);
    }
    PaddedPrefixBytes(b, m);
    SameBytes(c, f, b, m);
  }

  /** Two labels that agree with the same NUL-padded prefix of b are equal. */
  lemma SameBytes(c: seq<byte>, f: seq<byte>, b: seq<byte>, m: nat)
    requires |c| == |f| == LabelSize && m <= |b|
    requires forall i :: 0 <= i < LabelSize ==> c[i] == if i < m then b[i] else 0
    requires forall i :: 0 <= i < LabelSize ==> f[i] == if i < m then b[i] else 0
    ensures c == f
  {
  }

  /** The label holding the first m bytes of b, byte by byte. */
  lemma PaddedPrefixBytes(b: seq<byte>, m: nat)
    requires m < LabelSize && m <= |b|
    ensures forall i :: 0 <= i < LabelSize ==> FromText(b[..m])[i] == if i < m then b[i] else 0
  {
    var t := b[..m];
    var z := Zeros(LabelSize - m);
    assert FromText(t) == t + z;
    forall i | 0 <= i < LabelSize ensures (t + z)[i] == if i < m then b[i] else 0 {
      if i < m {
        assert (t + z)[i] == t[i];
      } else {
        assert (t + z)[i] == z[i - m];
      }
    }
  }

  /** One byte of a canonical copy. */
  lemma CanonicalAt(b: seq<byte>, i: nat)
    requires |b| >= LabelSize && i < LabelSize
    ensures var k := StrNLen(b, LabelSize);
            Canonical(b)[i] == if i < k && i < LabelSize - 1 then b[i] else 0
  {
    var s := StrNCpy(b, LabelSize);
    if i < LabelSize - 1 {
      assert Canonical(b)[i] == s[i];
    }
  }

  /** Only the text of a buffer decides its canonical copy, and a canonical label is its own copy. */
  lemma {:induction false} CanonicalOfFromText(t: seq<byte>)
    requires |t| < LabelSize && NulFree(t)
    ensures StrNCpy(FromText(t), LabelSize) == FromText(t)
    ensures Canonical(FromText(t)) == FromText(t)
    ensures CText(FromText(t)) == t
  {
    var f := FromText(t);
    assert f[..|t|] == t;
    assert StrNLen(f, LabelSize) == |t| by {
      StrNLenOfPadded(t, LabelSize);
    }
    assert StrNLen(f, |f|) == |t|;
  }

  /** strnlen of a NUL-free prefix followed by a NUL finds exactly that prefix. */
  lemma {:induction false} StrNLenOfPadded(t: seq<byte>, n: nat)
    requires |t| < n && NulFree(t)
    ensures StrNLen(t + Zeros(n - |t|), n) == |t|
  {
    var s := t + Zeros(n - |t|);
    assert forall i :: 0 <= i < |t| ==> s[i] == t[i];
    assert s[|t|] == 0;
  }

  /** For a buffer that already holds a NUL, the forced final NUL changes nothing. */
  lemma CanonicalOfCString(b: seq<byte>)
    requires |b| >= LabelSize && IsCString(b)
    ensures Canonical(b) == StrNCpy(b, LabelSize)
  {
    var s := StrNCpy(b, LabelSize);
    assert s[LabelSize - 1] == 0;
    assert s[LabelSize - 1 := 0] == s;
  }

  /** The C string of a canonical copy is the text before the first NUL, at most LabelSize - 1 bytes of it. */
  lemma CanonicalCText(b: seq<byte>)
    requires |b| >= LabelSize
    ensures var k := StrNLen(b, LabelSize);
            CText(Canonical(b)) == b[..if k < LabelSize then k else LabelSize - 1]
  {
    var k := StrNLen(b, LabelSize);
    var t := b[..if k < LabelSize then k else LabelSize - 1];
    assert NulFree(t) by {
      forall i | 0 <= i < |t| ensures t[i] != 0 {
        assert t[i] == b[i];
      }
    }
    assert Canonical(b) == FromText(t) by {
      CanonicalText(b);
    }
    assert CText(FromText(t)) == t by {
      CanonicalOfFromText(t);
    }
  }

  /** Copying a canonical label again changes nothing: persistence round trips rely on it. */
  lemma CanonicalStable(b: seq<byte>)
    requires |b| >= LabelSize
    ensures StrNCpy(Canonical(b), LabelSize) == Canonical(b)
    ensures Canonical(Canonical(b)) == Canonical(b)
  {
    var k := StrNLen(b, LabelSize);
    var m := if k < LabelSize then k else LabelSize - 1;
    CanonicalText(b);
    assert NulFree(b[..m]);
    CanonicalOfFromText(b[..m]);
  }
}
