// cli/hid.go: finding the keyboard's raw-HID interface. A DeviceQueryParams
// holds the criteria, match decides whether an enumerated interface meets
// them, openQuery keeps the interfaces that do, and openDevice insists on
// exactly one.

module HidQuery {
  import opened Config

  /** The errors package kbp reports: its own four, and a failed call into the HID library. */
  datatype KbpError = NoUniqueDeviceFound | NoDeviceFound | UnsupportedCommand | TransferAborted | DeviceError

  /** hid.VendorIDAny and hid.ProductIDAny: the wildcard ids. */
  const VendorIdAny: u16 := 0
  const ProductIdAny: u16 := 0

  /** The usage id and page of QMK's raw-HID interface. */
  const DefaultUsageId: u16 := 0x0061
  const DefaultUsagePage: u16 := 0xff60

  /** hid.DeviceInfo: the fields of an enumerated interface that a query inspects, and its path. */
  datatype HidInfo = HidInfo(
    path: seq<byte>,
    vendorId: u16,
    productId: u16,
    mfr: seq<byte>,
    product: seq<byte>,
    usage: u16,
    usagePage: u16)

  /** DeviceInfo: package kbp's wrapper of an enumerated interface. */
  datatype DeviceInfo = DeviceInfo(info: HidInfo)

  /** The criteria a DeviceQueryParams holds. */
  datatype Criteria = Criteria(
    usageId: u16,
    usagePage: u16,
    vendorId: u16,
    productId: u16,
    productName: seq<byte>,
    vendorName: seq<byte>)

  /** NewQueryParams: any vendor and product, QMK's raw-HID usage, any names. */
  const Defaults: Criteria := Criteria(DefaultUsageId, DefaultUsagePage, VendorIdAny, ProductIdAny, [], [])

  /** One criterion is met when it is the wildcard or equals the interface's value. */
  predicate Meets<T(==)>(want: T, any: T, have: T)
  {
    want == any || want == have
  }

  /** match: the criteria are checked one by one, and the first that fails rejects the interface. */
  function Match(c: Criteria, d: HidInfo): (m: bool)
    ensures m <==> Meets(c.productId, ProductIdAny, d.productId) && Meets(c.vendorId, VendorIdAny, d.vendorId) &&
                   Meets(c.usageId, 0, d.usage) && Meets(c.usagePage, 0, d.usagePage) &&
                   Meets(c.productName, [], d.product) && Meets(c.vendorName, [], d.mfr)
  {
    if c.productId != ProductIdAny && c.productId != d.productId then false
    else if c.vendorId != VendorIdAny && c.vendorId != d.vendorId then false
    else if c.usageId != 0 && c.usageId != d.usage then false
    else if c.usagePage != 0 && c.usagePage != d.usagePage then false
    else if c.productName != [] && c.productName != d.product then false
    else if c.vendorName != [] && c.vendorName != d.mfr then false
    else true
  }

  /** The criteria openDevices builds from an interface: all of its fields except the path. */
  function QueryOf(d: HidInfo): (c: Criteria)
    ensures Match(c, d)
  {
    Criteria(d.usage, d.usagePage, d.vendorId, d.productId, d.product, d.mfr)
  }

  /** The default query finds exactly the interfaces with QMK's raw-HID usage id and page. */
  lemma DefaultsFindRawHid(d: HidInfo)
    ensures Match(Defaults, d) <==> d.usage == DefaultUsageId && d.usagePage == DefaultUsagePage
  {
  }

  /** The query built from an interface matches exactly the interfaces that differ from it at most in path. */
  lemma QueryOfIgnoresPath(d: HidInfo, e: HidInfo)
    requires d.vendorId != VendorIdAny && d.productId != ProductIdAny && d.usage != 0 && d.usagePage != 0
    requires d.mfr != [] && d.product != []
    ensures Match(QueryOf(d), e) <==> e.(path := d.path) == d
  {
  }

  /** The interfaces of ds that meet c, in enumeration order. */
  function Filter(c: Criteria, ds: seq<HidInfo>): (r: seq<HidInfo>)
    ensures |r| <= |ds|
  {
    if ds == [] then []
    else (if Match(c, ds[0]) then [ds[0]] else []) + Filter(c, ds[1..])
  }

  /** Filtering one more interface: it is appended exactly when it matches. */
  lemma {:induction false} FilterSnoc(c: Criteria, ds: seq<HidInfo>, d: HidInfo)
    ensures Filter(c, ds + [d]) == Filter(c, ds) + (if Match(c, d) then [d] else [])
  {
    if ds != [] {
      assert (ds + [d])[1..] == ds[1..] + [d];
      FilterSnoc(c, ds[1..], d);
    }
  }

  /** openQuery keeps exactly the enumerated interfaces that match. */
  lemma {:induction false} FilterKeepsMatches(c: Criteria, ds: seq<HidInfo>)
    ensures forall d :: d in Filter(c, ds) <==> d in ds && Match(c, d)
  {
    if ds != [] {
      FilterKeepsMatches(c, ds[1..]);
      assert forall d :: d in ds <==> d == ds[0] || d in ds[1..];
    }
  }

  /** openQuery keeps the enumeration order: the kept interfaces are a subsequence of the enumerated ones. */
  lemma {:induction false} FilterIsSubsequence(c: Criteria, ds: seq<HidInfo>) returns (idx: seq<nat>)
    ensures |idx| == |Filter(c, ds)|
    ensures forall k :: 0 <= k < |idx| ==> idx[k] < |ds| && ds[idx[k]] == Filter(c, ds)[k]
    ensures forall k, m :: 0 <= k < m < |idx| ==> idx[k] < idx[m]
  {
    if ds == [] {
      idx := [];
    } else {
      var rest := FilterIsSubsequence(c, ds[1..]);
      var shifted := seq(|rest|, k requires 0 <= k < |rest| => rest[k] + 1);
      idx := if Match(c, ds[0]) then [0] + shifted else shifted;
    }
  }

  /** The outcome of openDevice: the interface it opened, or why it did not. */
  datatype Opened = Opened(info: HidInfo) | OpenFailed(err: KbpError)

  /**
   * openDevice's decision: query with every field of the wanted interface,
   * refuse several matches or none, and open the single match's path
   * (openOk says whether hid.OpenPath succeeds).
   */
  function OpenOutcome(device: DeviceInfo, enumerated: seq<HidInfo>, openOk: bool): (r: Opened)
  {
    var devs := Filter(QueryOf(device.info), enumerated);
    if |devs| > 1 then OpenFailed(NoUniqueDeviceFound)
    else if |devs| == 0 then OpenFailed(NoDeviceFound)
    else if !openOk then OpenFailed(DeviceError)
    else Opened(devs[0])
  }

  /** openDevice opens an interface only when it is the one enumerated interface with the wanted fields. */
  lemma OpenedIsUnique(device: DeviceInfo, enumerated: seq<HidInfo>, openOk: bool)
    requires OpenOutcome(device, enumerated, openOk).Opened?
    ensures var d := OpenOutcome(device, enumerated, openOk).info;
            d in enumerated && Match(QueryOf(device.info), d) &&
            forall e :: e in enumerated && Match(QueryOf(device.info), e) ==> e == d
  {
    var devs := Filter(QueryOf(device.info), enumerated);
    FilterKeepsMatches(QueryOf(device.info), enumerated);
    assert forall e :: e in devs ==> e == devs[0];
  }

  /** The path is not a criterion: two enumerated interfaces with the wanted fields make openDevice fail. */
  lemma TwinsAreNotUnique(device: DeviceInfo, enumerated: seq<HidInfo>, openOk: bool, i: nat, j: nat)
    requires i < j < |enumerated|
    requires Match(QueryOf(device.info), enumerated[i]) && Match(QueryOf(device.info), enumerated[j])
    ensures OpenOutcome(device, enumerated, openOk) == OpenFailed(NoUniqueDeviceFound)
  {
    TwoMatchesKept(QueryOf(device.info), enumerated, i, j);
  }

  /** A matching interface at index j is kept. */
  lemma {:induction false} MatchKept(c: Criteria, ds: seq<HidInfo>, j: nat)
    requires j < |ds| && Match(c, ds[j])
    ensures |Filter(c, ds)| >= 1
  {
    if j > 0 {
      MatchKept(c, ds[1..], j - 1);
    }
  }

  /** Two matching interfaces at indices i < j are both kept. */
  lemma {:induction false} TwoMatchesKept(c: Criteria, ds: seq<HidInfo>, i: nat, j: nat)
    requires i < j < |ds| && Match(c, ds[i]) && Match(c, ds[j])
    ensures |Filter(c, ds)| >= 2
  {
    if i > 0 {
      TwoMatchesKept(c, ds[1..], i - 1, j - 1);
    } else {
      MatchKept(c, ds[1..], j - 1);
    }
  }

  /** DeviceQueryParams: the criteria, updated in place by the With* setters. */
  class QueryParams {
    var usageId: u16
    var usagePage: u16
    var vendorId: u16
    var productId: u16
    var productName: seq<byte>
    var vendorName: seq<byte>

    function Value(): Criteria
      reads this
    {
      Criteria(usageId, usagePage, vendorId, productId, productName, vendorName)
    }

    /** NewQueryParams. */
    constructor ()
      ensures Value() == Defaults
    {
      usageId := DefaultUsageId;
      usagePage := DefaultUsagePage;
      vendorId := VendorIdAny;
      productId := ProductIdAny;
      productName := [];
      vendorName := [];
    }

    /** A DeviceQueryParams literal. */
    constructor Of(c: Criteria)
      ensures Value() == c
    {
      usageId := c.usageId;
      usagePage := c.usagePage;
      vendorId := c.vendorId;
      productId := c.productId;
      productName := c.productName;
      vendorName := c.vendorName;
    }

    /** match, on the criteria this holds. */
    predicate Matches(d: HidInfo)
      reads this
    {
      Match(Value(), d)
    }

    /** WithProductID as written: it stores the product id in the vendor id. */
    method WithProductIdAsWritten(pid: u16) returns (r: QueryParams)
      modifies this
      ensures r == this && Value() == SetProductIdAsWritten(old(Value()), pid)
    {
      vendorId := pid;
      return this;
    }

    /** WithProductID as intended: it sets the product id. */
    method WithProductId(pid: u16) returns (r: QueryParams)
      modifies this
      ensures r == this && Value() == SetProductId(old(Value()), pid)
    {
      productId := pid;
      return this;
    }

    /** WithVendorID. */
    method WithVendorId(vid: u16) returns (r: QueryParams)
      modifies this
      ensures r == this && Value() == old(Value()).(vendorId := vid)
    {
      vendorId := vid;
      return this;
    }

    /** WithUsageID. */
    method WithUsageId(usage: u16) returns (r: QueryParams)
      modifies this
      ensures r == this && Value() == old(Value()).(usageId := usage)
    {
      usageId := usage;
      return this;
    }

    /** WithUsagePage. */
    method WithUsagePage(page: u16) returns (r: QueryParams)
      modifies this
      ensures r == this && Value() == old(Value()).(usagePage := page)
    {
      usagePage := page;
      return this;
    }
  }

  /** The criteria after WithProductID as written. */
  function SetProductIdAsWritten(c: Criteria, pid: u16): (r: Criteria)
    ensures r.productId == c.productId
  {
    c.(vendorId := pid)
  }

  /** The criteria after WithProductID as intended. */
  function SetProductId(c: Criteria, pid: u16): (r: Criteria)
    ensures r.productId == pid && r.(productId := c.productId) == c
  {
    c.(productId := pid)
  }

  /**
   * As written, WithProductID(0x3333) on the default query accepts an
   * interface whose product id is not 0x3333 and rejects one whose product id is.
   */
  lemma WithProductIdAsWrittenMisses()
    ensures var c := SetProductIdAsWritten(Defaults, 0x3333);
            Match(c, HidInfo([], 0x3333, 0x0001, [], [], DefaultUsageId, DefaultUsagePage)) &&
            !Match(c, HidInfo([], 0x1234, 0x3333, [], [], DefaultUsageId, DefaultUsagePage))
  {
  }

  /** As intended, a query with a product id accepts only interfaces with that id, and the vendor criterion stays. */
  lemma WithProductIdSelectsProduct(c: Criteria, pid: u16, d: HidInfo)
    requires pid != ProductIdAny
    ensures Match(SetProductId(c, pid), d) <==> d.productId == pid && Match(c.(productId := ProductIdAny), d)
  {
  }

  /** openQuery: enumerate (the devices hid.Enumerate reports for the query's ids) and keep the matches. */
  method OpenQuery(p: QueryParams, enumerated: seq<HidInfo>) returns (results: seq<HidInfo>)
    ensures results == Filter(p.Value(), enumerated)
  {
    results := [];
    var i := 0;
    while i < |enumerated|
      invariant i <= |enumerated|
      invariant results == Filter(p.Value(), enumerated[..i])
    {
      var info := enumerated[i];
      FilterSnoc(p.Value(), enumerated[..i], info);
      assert enumerated[..i + 1] == enumerated[..i] + [info];
      if p.Matches(info) {
        results := results + [info];
      }
      i := i + 1;
    }
    assert enumerated[..i] == enumerated;
  }

  /** from: wrap each enumerated interface, keeping length and order. */
  method From(infos: seq<HidInfo>) returns (result: seq<DeviceInfo>)
    ensures |result| == |infos|
    ensures forall k :: 0 <= k < |infos| ==> result[k].info == infos[k]
  {
    result := [];
    for i := 0 to |infos|
      invariant |result| == i
      invariant forall k :: 0 <= k < i ==> result[k].info == infos[k]
    {
      result := result + [DeviceInfo(infos[i])];
    }
  }

  /** Query: the matching interfaces, wrapped. */
  method Query(p: QueryParams, enumerated: seq<HidInfo>) returns (d: seq<DeviceInfo>)
    ensures |d| == |Filter(p.Value(), enumerated)|
    ensures forall k :: 0 <= k < |d| ==> d[k].info == Filter(p.Value(), enumerated)[k]
  {
    var devs := OpenQuery(p, enumerated);
    d := From(devs);
  }

  /** openDevices: query with every field of the wanted interface except its path. */
  method OpenDevices(device: DeviceInfo, enumerated: seq<HidInfo>) returns (results: seq<HidInfo>)
    ensures results == Filter(QueryOf(device.info), enumerated)
  {
    var q := new QueryParams.Of(QueryOf(device.info));
    results := OpenQuery(q, enumerated);
  }

  /** openDevice: exactly one interface must have the wanted fields; then its path is opened. */
  method OpenDevice(device: DeviceInfo, enumerated: seq<HidInfo>, openOk: bool) returns (r: Opened)
    ensures r == OpenOutcome(device, enumerated, openOk)
  {
    var devs := OpenDevices(device, enumerated);
    if |devs| > 1 {
      return OpenFailed(NoUniqueDeviceFound);
    }
    if |devs| == 0 {
      return OpenFailed(NoDeviceFound);
    }
    if !openOk {
      return OpenFailed(DeviceError);
    }
    return Opened(devs[0]);
  }
}
