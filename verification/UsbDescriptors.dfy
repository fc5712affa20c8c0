/**
  filter_usb_device (pwl-fwupdate/fastboot/usb_linux.cpp): finding the fastboot interface and
  its bulk endpoints in the descriptors a USB device reports.

  The walk is a cursor into the bytes that were read; the source's `len` is what is left
  after the cursor, negative once the cursor has passed the end.
 */
module UsbDescriptors {
  import opened CText

  type Byte = x: int | 0 <= x < 256
  type Descriptor = seq<Byte>

  const USB_DT_DEVICE: Byte := 1
  const USB_DT_CONFIG: Byte := 2
  const USB_DT_INTERFACE: Byte := 4
  const USB_DT_ENDPOINT: Byte := 5
  const USB_DT_SS_ENDPOINT_COMP: Byte := 0x30
  const USB_DT_DEVICE_SIZE: nat := 18
  const USB_DT_CONFIG_SIZE: nat := 9
  const USB_DT_INTERFACE_SIZE: nat := 9
  const USB_DT_ENDPOINT_SIZE: nat := 7
  const USB_DT_SS_EP_COMP_SIZE: nat := 6

  /** What the callback compares a serial number with. */
  datatype Target = Target(wanted: Option<string>, number: string, path: string)

  /** The fields of an interface descriptor and of an endpoint descriptor that matter. */
  datatype Interface = Interface(number: Byte, endpoints: Byte, class_: Byte, subclass: Byte, protocol: Byte)
  datatype Endpoint = Endpoint(address: Byte, attributes: Byte)

  /** match_fastboot_with_serial. */
  predicate Accepts(t: Target, ifc: Interface) {
    && ifc.class_ == 0xff && ifc.subclass == 0x42 && ifc.protocol == 0x03
    && (t.wanted.Some? ==> t.wanted.value == t.number || t.wanted.value == t.path)
  }

  /** `Outside`: an endpoint is read past the end of the bytes.  `Stuck`: a zero-length descriptor is skipped for ever. */
  datatype Walk = NotFound | Found(epIn: int, epOut: int, ifc: int) | Outside | Stuck

  // ----- The walk -----

  predicate Check(b: seq<Byte>, at: nat, kind: Byte, size: nat)
    requires size >= 2
  {
    at + size <= |b| && b[at] >= size && After(b, at) <= |b| && b[at + 1] == kind
  }

  function After(b: seq<Byte>, at: nat): (r: nat)
    requires at < |b|
    ensures r >= at
  {
    at + b[at]
  }

  function InterfaceAt(b: seq<Byte>, at: nat): Interface
    requires at + USB_DT_INTERFACE_SIZE <= |b|
  {
    Interface(b[at + 2], b[at + 4], b[at + 5], b[at + 6], b[at + 7])
  }

  function EndpointAt(b: seq<Byte>, at: nat): Endpoint
    requires at + USB_DT_ENDPOINT_SIZE <= |b|
  {
    Endpoint(b[at + 2], b[at + 3])
  }

  predicate Bulk(e: Endpoint) {
    e.attributes % 4 == 2
  }

  predicate Inward(e: Endpoint) {
    e.address >= 0x80
  }

  /** Past the endpoint at `at`, and past its companion if the walk takes it. */
  function PastEndpoint(b: seq<Byte>, at: nat): (r: nat)
    requires at + USB_DT_ENDPOINT_SIZE <= |b|
    ensures r >= at
  {
    if Bulk(EndpointAt(b, at)) && Check(b, After(b, at), USB_DT_SS_ENDPOINT_COMP, USB_DT_SS_EP_COMP_SIZE)
    then After(b, at) + USB_DT_SS_EP_COMP_SIZE else After(b, at)
  }

  /** The endpoint remembered for one direction, once `e` was seen. */
  function Latest(e: Endpoint, inward: bool, before: int): int {
    if Bulk(e) && Inward(e) == inward then e.address else before
  }

  /** The skipping loops: where the next descriptor of a kind is, or a cursor at or past the end; none if the loop never ends. */
  function Seek(b: seq<Byte>, at: nat, kind: Byte, size: nat): (r: Option<nat>)
    requires size >= 2
    ensures r.Some? ==> at <= r.value && (r.value < |b| ==> Check(b, r.value, kind, size))
    decreases |b| - at
  {
    if at >= |b| || Check(b, at, kind, size) then Some(at)
    else if b[at] == 0 then None
    else Seek(b, After(b, at), kind, size)
  }

  /** Where the endpoints of an interface end and which were the last bulk ones, or why the walk cannot go on. */
  datatype Ends = Ends(at: nat, epIn: int, epOut: int) | Broken(why: Walk)

  function Endpoints(b: seq<Byte>, at: nat, left: nat, epIn: int, epOut: int): (r: Ends)
    ensures r.Broken? ==> r.why == Outside || r.why == Stuck
    ensures r.Ends? ==> at <= r.at
    decreases left
  {
    if left == 0 then Ends(at, epIn, epOut)
    else
      var p := Seek(b, at, USB_DT_ENDPOINT, USB_DT_ENDPOINT_SIZE);
      if p.None? then Broken(Stuck)
      else if p.value > |b| then Ends(p.value, epIn, epOut)
      else if p.value == |b| then Broken(Outside)
      else
        var e := EndpointAt(b, p.value);
        Endpoints(b, PastEndpoint(b, p.value), left - 1, Latest(e, true, epIn), Latest(e, false, epOut))
  }

  function Interfaces(b: seq<Byte>, at: nat, left: nat, t: Target): Walk
    decreases left
  {
    if left == 0 then NotFound
    else
      var p := Seek(b, at, USB_DT_INTERFACE, USB_DT_INTERFACE_SIZE);
      if p.None? then Stuck
      else if p.value >= |b| then NotFound
      else
        var ifc := InterfaceAt(b, p.value);
        var ends := Endpoints(b, After(b, p.value), ifc.endpoints, -1, -1);
        if ends.Broken? then ends.why
        else if Accepts(t, ifc) then Found(ends.epIn, ends.epOut, ifc.number)
        else Interfaces(b, ends.at, left - 1, t)
  }

  function Filter(b: seq<Byte>, t: Target): Walk {
    if !Check(b, 0, USB_DT_DEVICE, USB_DT_DEVICE_SIZE) then NotFound
    else if !Check(b, b[0], USB_DT_CONFIG, USB_DT_CONFIG_SIZE) then NotFound
    else Interfaces(b, After(b, b[0]), b[b[0] + 4], t)
  }

  // ----- The loops -----

  /** `ptr` and `len` move together: their sum is the end of the bytes throughout. */
  method SkipTo(b: seq<Byte>, from: nat, kind: Byte, size: nat) returns (stuck: bool, ptr: nat)
    requires size >= 2
    ensures Seek(b, from, kind, size) == if stuck then None else Some(ptr)
  {
    ptr := from;
    var len := |b| - from;
    while len > 0
      invariant ptr + len == |b|
      invariant Seek(b, from, kind, size) == Seek(b, ptr, kind, size)
    {
      if Check(b, ptr, kind, size) {
        return false, ptr;
      }
      if b[ptr] == 0 {
        return true, ptr;
      }
      len := len - b[ptr];
      ptr := ptr + b[ptr];
    }
    stuck := false;
  }

  method WalkEndpoints(b: seq<Byte>, from: nat, count: nat) returns (r: Ends)
    ensures r == Endpoints(b, from, count, -1, -1)
  {
    var ptr: nat := from;
    var epIn: int, epOut: int := -1, -1;
    var e: nat := 0;
    while e < count
      invariant e <= count
      invariant Endpoints(b, from, count, -1, -1) == Endpoints(b, ptr, count - e, epIn, epOut)
    {
      var stuck, p := SkipTo(b, ptr, USB_DT_ENDPOINT, USB_DT_ENDPOINT_SIZE);
      if stuck {
        return Broken(Stuck);
      }
      if p > |b| {
        return Ends(p, epIn, epOut);
      }
      if p == |b| {
        return Broken(Outside);
      }
      var ept := EndpointAt(b, p);
      ptr := After(b, p);
      e := e + 1;
      if Bulk(ept) {
        if Inward(ept) {
          epIn := ept.address;
        } else {
          epOut := ept.address;
        }
        if Check(b, ptr, USB_DT_SS_ENDPOINT_COMP, USB_DT_SS_EP_COMP_SIZE) {
          ptr := ptr + USB_DT_SS_EP_COMP_SIZE;
        }
      }
    }
    r := Ends(ptr, epIn, epOut);
  }

  method FilterUsbDevice(b: seq<Byte>, t: Target) returns (r: Walk)
    ensures r == Filter(b, t)
  {
    if !Check(b, 0, USB_DT_DEVICE, USB_DT_DEVICE_SIZE) {
      return NotFound;
    }
    var cfg := b[0];
    if !Check(b, cfg, USB_DT_CONFIG, USB_DT_CONFIG_SIZE) {
      return NotFound;
    }
    var ptr := After(b, cfg);
    var i: nat := 0;
    while i < b[cfg + 4]
      invariant i <= b[cfg + 4]
      invariant Filter(b, t) == Interfaces(b, ptr, b[cfg + 4] - i, t)
    {
      var stuck, p := SkipTo(b, ptr, USB_DT_INTERFACE, USB_DT_INTERFACE_SIZE);
      if stuck {
        return Stuck;
      }
      if p >= |b| {
        return NotFound;
      }
      var ifc := InterfaceAt(b, p);
      var ends := WalkEndpoints(b, After(b, p), ifc.endpoints);
      if ends.Broken? {
        return ends.why;
      }
      if Accepts(t, ifc) {
        return Found(ends.epIn, ends.epOut, ifc.number);
      }
      ptr := ends.at;
      i := i + 1;
    }
    r := NotFound;
  }

  // ----- Descriptor sequences (section 9.6 of the USB 2.0 specification) -----

  /** From `at` on, descriptors of at least two bytes follow each other up to the end, and a companion is not overlong. */
  predicate Chain(b: seq<Byte>, at: nat)
    decreases |b| - at
  {
    at == |b| || (at < |b| && Link(b, at) && Chain(b, After(b, at)))
  }

  predicate Link(b: seq<Byte>, at: nat)
    requires at < |b|
  {
    2 <= b[at] && After(b, at) <= |b| && (b[at + 1] == USB_DT_SS_ENDPOINT_COMP ==> b[at] <= USB_DT_SS_EP_COMP_SIZE)
  }

  function Parts(b: seq<Byte>, at: nat): (ds: seq<Descriptor>)
    requires Chain(b, at)
    ensures forall i :: 0 <= i < |ds| ==> |ds[i]| >= 2
    decreases |b| - at
  {
    if at == |b| then [] else [b[at..After(b, at)]] + Parts(b, After(b, at))
  }

  predicate IsKind(d: Descriptor, kind: Byte, size: nat)
    requires |d| >= 2
  {
    |d| >= size && d[1] == kind
  }

  predicate IsInterface(d: Descriptor)
    requires |d| >= 2
  {
    IsKind(d, USB_DT_INTERFACE, USB_DT_INTERFACE_SIZE)
  }

  predicate IsEndpoint(d: Descriptor)
    requires |d| >= 2
  {
    IsKind(d, USB_DT_ENDPOINT, USB_DT_ENDPOINT_SIZE)
  }

  predicate WellSized(ds: seq<Descriptor>) {
    forall i :: 0 <= i < |ds| ==> |ds[i]| >= 2
  }

  /** What the walk looks for among the descriptors; everything else it passes over. */
  datatype Mark = I(ifc: Interface) | E(ept: Endpoint)

  function Marks(ds: seq<Descriptor>): seq<Mark>
    requires WellSized(ds)
  {
    if ds == [] then []
    else if IsInterface(ds[0]) then [I(InterfaceAt(ds[0], 0))] + Marks(ds[1..])
    else if IsEndpoint(ds[0]) then [E(EndpointAt(ds[0], 0))] + Marks(ds[1..])
    else Marks(ds[1..])
  }

  /** An interface and the endpoints before the next one. */
  datatype Group = Group(ifc: Interface, ends: seq<Endpoint>)

  function OwnEnds(ms: seq<Mark>): seq<Endpoint> {
    if ms == [] || ms[0].I? then [] else [ms[0].ept] + OwnEnds(ms[1..])
  }

  function Groups(ms: seq<Mark>): seq<Group> {
    if ms == [] then []
    else if ms[0].I? then [Group(ms[0].ifc, OwnEnds(ms[1..]))] + Groups(ms[1..])
    else Groups(ms[1..])
  }

  /** The interface has the endpoints it declares. */
  predicate Complete(g: Group) {
    g.ifc.endpoints <= |g.ends|
  }

  /** The first `n` have. */
  predicate AllComplete(gs: seq<Group>, n: nat) {
    forall i :: 0 <= i < |gs| && i < n ==> Complete(gs[i])
  }

  /** The address of the last bulk endpoint in one direction. */
  function LastBulk(ends: seq<Endpoint>, inward: bool, otherwise: int := -1): (r: int)
    ensures (r == otherwise && forall i :: 0 <= i < |ends| ==> !(Bulk(ends[i]) && Inward(ends[i]) == inward))
         || exists i :: 0 <= i < |ends| && Bulk(ends[i]) && Inward(ends[i]) == inward && r == ends[i].address
                        && forall j :: i < j < |ends| ==> !(Bulk(ends[j]) && Inward(ends[j]) == inward)
  {
    if ends == [] then otherwise else LastBulk(ends[1..], inward, Latest(ends[0], inward, otherwise))
  }

  /** The first of the first `n` groups whose interface is accepted, or -1. */
  function FirstAccepted(gs: seq<Group>, n: nat, t: Target): (k: int)
    ensures -1 <= k < |gs| && k < n
    ensures k != -1 ==> Accepts(t, gs[k].ifc)
    ensures forall i :: 0 <= i < |gs| && i < n && (k == -1 || i < k) ==> !Accepts(t, gs[i].ifc)
  {
    if n == 0 || gs == [] then -1
    else if Accepts(t, gs[0].ifc) then 0
    else
      var k := FirstAccepted(gs[1..], n - 1, t);
      assert forall i :: 1 <= i < |gs| ==> gs[i] == gs[1..][i - 1];
      if k == -1 then -1 else k + 1
  }

  function Pick(g: Group): Walk
    requires Complete(g)
  {
    var own := g.ends[..g.ifc.endpoints];
    Found(LastBulk(own, true), LastBulk(own, false), g.ifc.number)
  }

  /** What the walk is to report for these groups. */
  function Chosen(gs: seq<Group>, n: nat, t: Target): Walk
    requires AllComplete(gs, n)
  {
    var k := FirstAccepted(gs, n, t);
    if k == -1 then NotFound else Pick(gs[k])
  }

  // ----- The walk over a descriptor sequence -----

  lemma CheckIsKind(b: seq<Byte>, at: nat, kind: Byte, size: nat)
    requires Chain(b, at) && at < |b| && size >= 2
    ensures Check(b, at, kind, size) <==> IsKind(Parts(b, at)[0], kind, size)
  {
  }

  /** Stepping over an endpoint and its companion leaves what comes after them. */
  lemma StepOver(b: seq<Byte>, at: nat) returns (after: nat)
    requires Chain(b, at) && at < |b| && IsEndpoint(Parts(b, at)[0])
    ensures at + USB_DT_ENDPOINT_SIZE <= |b| && after == PastEndpoint(b, at) && Chain(b, after)
    ensures Marks(Parts(b, at)) == [E(EndpointAt(b, at))] + Marks(Parts(b, after))
  {
    CheckIsKind(b, at, USB_DT_ENDPOINT, USB_DT_ENDPOINT_SIZE);
    after := PastEndpoint(b, at);
    var next := After(b, at);
    assert Parts(b, at)[1..] == Parts(b, next);
    assert EndpointAt(Parts(b, at)[0], 0) == EndpointAt(b, at);
    if after != next {
      assert Parts(b, next)[1..] == Parts(b, after);
    }
  }

  lemma TakenStep(ends: seq<Endpoint>, e: Endpoint, rest: seq<Endpoint>, left: nat, inward: bool, before: int)
    requires ends == [e] + rest && 0 < left <= |ends|
    ensures LastBulk(ends[..left], inward, before) == LastBulk(rest[..left - 1], inward, Latest(e, inward, before))
  {
    assert ends[..left][1..] == rest[..left - 1];
  }

  // ----- Any descriptor sequence -----

  /** All endpoints that follow, of whatever interface. */
  function AllEnds(ms: seq<Mark>): seq<Endpoint> {
    if ms == [] then [] else if ms[0].E? then [ms[0].ept] + AllEnds(ms[1..]) else AllEnds(ms[1..])
  }

  function ToEnd(ms: seq<Mark>): (r: seq<Mark>)
    ensures |r| <= |ms|
  {
    if ms == [] || ms[0].E? then ms else ToEnd(ms[1..])
  }

  function ToIfc(ms: seq<Mark>): (r: seq<Mark>)
    ensures |r| <= |ms|
  {
    if ms == [] || ms[0].I? then ms else ToIfc(ms[1..])
  }

  /** What is left once `n` endpoints were taken, together with any interface in front of one of them. */
  function DropEnds(ms: seq<Mark>, n: nat): (r: seq<Mark>)
    ensures |r| <= |ms|
    decreases |ms|
  {
    if n == 0 || ms == [] then ms else DropEnds(ms[1..], if ms[0].E? then n - 1 else n)
  }

  /** An interface that the walk comes to, and all the endpoints that are left behind it. */
  datatype Visit = Visit(ifc: Interface, ends: seq<Endpoint>)

  /** The interface declares more endpoints than there are. */
  predicate Short(v: Visit) {
    v.ifc.endpoints > |v.ends|
  }

  /** The interfaces that a walk of at most `left` interfaces comes to, if none is accepted. */
  function Visits(ms: seq<Mark>, left: nat): seq<Visit>
    decreases |ms|
  {
    if ms == [] || left == 0 then []
    else if ms[0].E? then Visits(ms[1..], left)
    else
      var v := Visit(ms[0].ifc, AllEnds(ms[1..]));
      [v] + if Short(v) then [] else Visits(DropEnds(ms[1..], v.ifc.endpoints), left - 1)
  }

  function Taken(v: Visit): Walk
    requires !Short(v)
  {
    var own := v.ends[..v.ifc.endpoints];
    Found(LastBulk(own, true), LastBulk(own, false), v.ifc.number)
  }

  /** The first visit that ends the walk decides: it is past the end, or the interface is accepted. */
  function Report(vs: seq<Visit>, t: Target): Walk {
    if vs == [] then NotFound
    else if Short(vs[0]) then Outside
    else if Accepts(t, vs[0].ifc) then Taken(vs[0])
    else Report(vs[1..], t)
  }

  // ----- The walk on marks -----

  lemma {:induction false} SeekEndMark(b: seq<Byte>, at: nat) returns (p: nat)
    requires Chain(b, at)
    ensures Seek(b, at, USB_DT_ENDPOINT, USB_DT_ENDPOINT_SIZE) == Some(p) && p <= |b| && Chain(b, p)
    ensures Marks(Parts(b, p)) == ToEnd(Marks(Parts(b, at)))
    ensures p < |b| <==> ToEnd(Marks(Parts(b, at))) != []
    ensures p < |b| ==> IsEndpoint(Parts(b, p)[0])
    decreases |b| - at
  {
    if at == |b| {
      p := at;
    } else {
      CheckIsKind(b, at, USB_DT_ENDPOINT, USB_DT_ENDPOINT_SIZE);
      if IsEndpoint(Parts(b, at)[0]) {
        p := at;
      } else {
        assert Parts(b, at)[1..] == Parts(b, After(b, at));
        p := SeekEndMark(b, After(b, at));
        if IsInterface(Parts(b, at)[0]) {
          MarkOff(I(InterfaceAt(Parts(b, at)[0], 0)), Marks(Parts(b, After(b, at))));
        }
      }
    }
  }

  lemma MarkOff(m: Mark, ms: seq<Mark>)
    ensures m.I? ==> ToEnd([m] + ms) == ToEnd(ms)
    ensures m.E? ==> ToIfc([m] + ms) == ToIfc(ms)
  {
    assert ([m] + ms)[1..] == ms;
  }

  lemma {:induction false} SeekIfcMark(b: seq<Byte>, at: nat) returns (p: nat)
    requires Chain(b, at)
    ensures Seek(b, at, USB_DT_INTERFACE, USB_DT_INTERFACE_SIZE) == Some(p) && p <= |b| && Chain(b, p)
    ensures Marks(Parts(b, p)) == ToIfc(Marks(Parts(b, at)))
    ensures p < |b| <==> ToIfc(Marks(Parts(b, at))) != []
    ensures p < |b| ==> IsInterface(Parts(b, p)[0])
    decreases |b| - at
  {
    if at == |b| {
      p := at;
    } else {
      CheckIsKind(b, at, USB_DT_INTERFACE, USB_DT_INTERFACE_SIZE);
      if IsInterface(Parts(b, at)[0]) {
        p := at;
      } else {
        assert Parts(b, at)[1..] == Parts(b, After(b, at));
        p := SeekIfcMark(b, After(b, at));
        if IsEndpoint(Parts(b, at)[0]) {
          MarkOff(E(EndpointAt(Parts(b, at)[0], 0)), Marks(Parts(b, After(b, at))));
        }
      }
    }
  }

  lemma {:induction false} ToEndSame(ms: seq<Mark>, n: nat)
    ensures AllEnds(ToEnd(ms)) == AllEnds(ms) && (n > 0 ==> DropEnds(ToEnd(ms), n) == DropEnds(ms, n))
    ensures ToEnd(ms) != [] ==> ToEnd(ms)[0].E?
  {
    if ms != [] && ms[0].I? {
      ToEndSame(ms[1..], n);
    }
  }

  lemma {:induction false} ToIfcSame(ms: seq<Mark>, left: nat)
    ensures Visits(ToIfc(ms), left) == Visits(ms, left) && (ToIfc(ms) != [] ==> ToIfc(ms)[0].I?)
  {
    if ms != [] && ms[0].E? {
      ToIfcSame(ms[1..], left);
    }
  }

  lemma OneEndpoint(b: seq<Byte>, at: nat, left: nat, epIn: int, epOut: int, q: nat)
    requires Chain(b, at) && left > 0 && Seek(b, at, USB_DT_ENDPOINT, USB_DT_ENDPOINT_SIZE) == Some(q)
    requires q + USB_DT_ENDPOINT_SIZE <= |b| && PastEndpoint(b, q) <= |b|
    ensures var e := EndpointAt(b, q);
            Endpoints(b, at, left, epIn, epOut) ==
            Endpoints(b, PastEndpoint(b, q), left - 1, Latest(e, true, epIn), Latest(e, false, epOut))
  {
  }

  /**
    The endpoint loop: it reads past the end exactly when more endpoints are asked for than all
    the descriptors left contain, and otherwise takes that many of them.
   */
  lemma {:induction false} EndpointsExactly(b: seq<Byte>, at: nat, left: nat, epIn: int, epOut: int) returns (p: nat)
    requires Chain(b, at)
    ensures var ms := Marks(Parts(b, at));
            if left > |AllEnds(ms)| then Endpoints(b, at, left, epIn, epOut) == Broken(Outside)
            else
              && Chain(b, p) && Marks(Parts(b, p)) == DropEnds(ms, left)
              && var own := AllEnds(ms)[..left];
                 Endpoints(b, at, left, epIn, epOut) == Ends(p, LastBulk(own, true, epIn), LastBulk(own, false, epOut))
    decreases left
  {
    p := at;
    if left > 0 {
      var q := SeekEndMark(b, at);
      var ms := Marks(Parts(b, at));
      ToEndSame(ms, left);
      if q < |b| {
        var after := StepOver(b, q);
        var e := EndpointAt(b, q);
        OneEndpoint(b, at, left, epIn, epOut, q);
        var rest := Marks(Parts(b, after));
        assert ToEnd(ms)[1..] == rest;
        p := EndpointsExactly(b, after, left - 1, Latest(e, true, epIn), Latest(e, false, epOut));
        assert AllEnds(ms) == [e] + AllEnds(rest);
        if left <= |AllEnds(ms)| {
          TakenStep(AllEnds(ms), e, AllEnds(rest), left, true, epIn);
          TakenStep(AllEnds(ms), e, AllEnds(rest), left, false, epOut);
        }
      }
    }
  }

  /** One pass of the interface loop that finds an interface. */
  lemma OneVisit(b: seq<Byte>, at: nat, left: nat, t: Target) returns (p: nat)
    requires Chain(b, at) && left > 0 && ToIfc(Marks(Parts(b, at))) != []
    ensures var ms := ToIfc(Marks(Parts(b, at)));
            && ms[0].I?
            && var v := Visit(ms[0].ifc, AllEnds(ms[1..]));
               && (Short(v) ==> Interfaces(b, at, left, t) == Outside)
               && (!Short(v) ==>
                     && Chain(b, p) && Marks(Parts(b, p)) == DropEnds(ms[1..], v.ifc.endpoints)
                     && Interfaces(b, at, left, t) == if Accepts(t, v.ifc) then Taken(v) else Interfaces(b, p, left - 1, t))
  {
    var q := SeekIfcMark(b, at);
    CheckIsKind(b, q, USB_DT_INTERFACE, USB_DT_INTERFACE_SIZE);
    assert Parts(b, q)[1..] == Parts(b, After(b, q));
    assert InterfaceAt(Parts(b, q)[0], 0) == InterfaceAt(b, q);
    assert Marks(Parts(b, q)) == [I(InterfaceAt(b, q))] + Marks(Parts(b, After(b, q)));
    p := EndpointsExactly(b, After(b, q), InterfaceAt(b, q).endpoints, -1, -1);
  }

  lemma NoVisit(b: seq<Byte>, at: nat, left: nat, t: Target)
    requires Chain(b, at) && ToIfc(Marks(Parts(b, at))) == []
    ensures Interfaces(b, at, left, t) == Report([], t)
  {
    var q := SeekIfcMark(b, at);
  }

  lemma {:induction false} InterfacesReported(b: seq<Byte>, at: nat, left: nat, t: Target)
    requires Chain(b, at)
    ensures Interfaces(b, at, left, t) == Report(Visits(Marks(Parts(b, at)), left), t)
    decreases left
  {
    var ms := Marks(Parts(b, at));
    if left > 0 {
      ToIfcSame(ms, left);
      if ToIfc(ms) == [] {
        NoVisit(b, at, left, t);
      } else {
        var p := OneVisit(b, at, left, t);
        var v := Visit(ToIfc(ms)[0].ifc, AllEnds(ToIfc(ms)[1..]));
        if !Short(v) {
          InterfacesReported(b, p, left - 1, t);
        }
        FirstReport(v, if Short(v) then [] else Visits(DropEnds(ToIfc(ms)[1..], v.ifc.endpoints), left - 1), t);
      }
    }
  }

  lemma FirstReport(v: Visit, vs: seq<Visit>, t: Target)
    ensures Report([v] + vs, t) == if Short(v) then Outside else if Accepts(t, v.ifc) then Taken(v) else Report(vs, t)
  {
    assert ([v] + vs)[1..] == vs;
  }

  predicate HasHeaders(ds: seq<Descriptor>)
    requires WellSized(ds)
  {
    |ds| >= 2 && IsKind(ds[0], USB_DT_DEVICE, USB_DT_DEVICE_SIZE) && IsKind(ds[1], USB_DT_CONFIG, USB_DT_CONFIG_SIZE)
  }

  /** The interfaces the walk comes to in a whole descriptor sequence. */
  function VisitsOf(ds: seq<Descriptor>): seq<Visit>
    requires WellSized(ds) && HasHeaders(ds)
  {
    Visits(Marks(ds[2..]), ds[1][4])
  }

  /** For every descriptor sequence: what the walk reports. */
  lemma FilterReports(b: seq<Byte>, t: Target)
    requires Chain(b, 0)
    ensures var ds := Parts(b, 0);
            Filter(b, t) == if HasHeaders(ds) then Report(VisitsOf(ds), t) else NotFound
  {
    var ds := Parts(b, 0);
    if 0 < |b| {
      CheckIsKind(b, 0, USB_DT_DEVICE, USB_DT_DEVICE_SIZE);
      assert ds[1..] == Parts(b, b[0]);
      if b[0] < |b| {
        CheckIsKind(b, b[0], USB_DT_CONFIG, USB_DT_CONFIG_SIZE);
        assert ds[2..] == Parts(b, After(b, b[0]));
        if HasHeaders(ds) {
          InterfacesReported(b, After(b, b[0]), b[b[0] + 4], t);
        }
      }
    }
  }

  /** The walk always ends. */
  lemma FilterEnds(b: seq<Byte>, t: Target)
    requires Chain(b, 0)
    ensures Filter(b, t) != Stuck
  {
    FilterReports(b, t);
    if HasHeaders(Parts(b, 0)) {
      ReportEnds(VisitsOf(Parts(b, 0)), t);
    }
  }

  lemma {:induction false} ReportEnds(vs: seq<Visit>, t: Target)
    ensures Report(vs, t) != Stuck
  {
    if vs != [] {
      ReportEnds(vs[1..], t);
    }
  }

  // ----- Complete interfaces -----

  /** A group's own endpoints come first among all that follow. */
  lemma {:induction false} OwnFirst(ms: seq<Mark>, n: nat)
    requires n <= |OwnEnds(ms)|
    ensures OwnEnds(ms) <= AllEnds(ms) && Groups(DropEnds(ms, n)) == Groups(ms)
  {
    if ms != [] && ms[0].E? {
      OwnFirst(ms[1..], if n == 0 then 0 else n - 1);
    }
  }

  lemma FirstChosen(g: Group, gs: seq<Group>, n: nat, t: Target)
    requires n > 0 && Complete(g) && AllComplete(gs, n - 1)
    ensures AllComplete([g] + gs, n)
    ensures Chosen([g] + gs, n, t) == if Accepts(t, g.ifc) then Pick(g) else Chosen(gs, n - 1, t)
  {
    assert ([g] + gs)[1..] == gs;
  }

  /** Where the interfaces have the endpoints they declare, a visit takes those of its own group. */
  lemma {:induction false} ReportChosen(ms: seq<Mark>, left: nat, t: Target)
    requires AllComplete(Groups(ms), left)
    ensures Report(Visits(ms, left), t) == Chosen(Groups(ms), left, t)
    decreases |ms|
  {
    if ms != [] && left > 0 {
      if ms[0].E? {
        ReportChosen(ms[1..], left, t);
      } else {
        var rest, accepted, picked := VisitChosen(ms, left, t);
        ReportChosen(rest, left - 1, t);
      }
    }
  }

  lemma VisitTaken(ms: seq<Mark>, v: Visit, g: Group)
    requires ms != [] && ms[0].I? && v == Visit(ms[0].ifc, AllEnds(ms[1..])) && g == Group(ms[0].ifc, OwnEnds(ms[1..])) && Complete(g)
    ensures !Short(v) && Taken(v) == Pick(g) && Groups(DropEnds(ms[1..], v.ifc.endpoints)) == Groups(ms[1..])
  {
    OwnFirst(ms[1..], g.ifc.endpoints);
    assert v.ends[..v.ifc.endpoints] == g.ends[..g.ifc.endpoints];
  }

  lemma FirstVisit(ms: seq<Mark>, left: nat, v: Visit)
    requires ms != [] && ms[0].I? && left > 0 && v == Visit(ms[0].ifc, AllEnds(ms[1..])) && !Short(v)
    ensures Visits(ms, left) == [v] + Visits(DropEnds(ms[1..], v.ifc.endpoints), left - 1)
  {
  }

  lemma ReportVisit(ms: seq<Mark>, left: nat, t: Target, g: Group) returns (rest: seq<Mark>)
    requires ms != [] && ms[0].I? && left > 0 && g == Group(ms[0].ifc, OwnEnds(ms[1..])) && Complete(g)
    ensures |rest| < |ms| && Groups(rest) == Groups(ms[1..])
    ensures Report(Visits(ms, left), t) == if Accepts(t, g.ifc) then Pick(g) else Report(Visits(rest, left - 1), t)
  {
    var v := Visit(ms[0].ifc, AllEnds(ms[1..]));
    VisitTaken(ms, v, g);
    FirstVisit(ms, left, v);
    rest := DropEnds(ms[1..], v.ifc.endpoints);
    FirstReport(v, Visits(rest, left - 1), t);
  }

  /** One interface: either it decides, `picked`, or both go on with the rest. */
  lemma VisitChosen(ms: seq<Mark>, left: nat, t: Target) returns (rest: seq<Mark>, accepted: bool, picked: Walk)
    requires ms != [] && ms[0].I? && left > 0 && AllComplete(Groups(ms), left)
    ensures |rest| < |ms| && AllComplete(Groups(rest), left - 1)
    ensures Report(Visits(ms, left), t) == if accepted then picked else Report(Visits(rest, left - 1), t)
    ensures Chosen(Groups(ms), left, t) == if accepted then picked else Chosen(Groups(rest), left - 1, t)
  {
    var g, gs := Group(ms[0].ifc, OwnEnds(ms[1..])), Groups(ms[1..]);
    ChosenSplit(ms, left, t, g, gs);
    rest := ReportVisit(ms, left, t, g);
    accepted, picked := Accepts(t, g.ifc), Pick(g);
  }

  lemma ChosenSplit(ms: seq<Mark>, left: nat, t: Target, g: Group, gs: seq<Group>)
    requires ms != [] && ms[0].I? && left > 0 && AllComplete(Groups(ms), left)
    requires g == Group(ms[0].ifc, OwnEnds(ms[1..])) && gs == Groups(ms[1..])
    ensures Complete(g) && AllComplete(gs, left - 1)
    ensures Chosen(Groups(ms), left, t) == if Accepts(t, g.ifc) then Pick(g) else Chosen(gs, left - 1, t)
  {
    GroupsSplit(ms, left, g, gs);
    FirstChosen(g, gs, left, t);
  }

  lemma GroupsSplit(ms: seq<Mark>, left: nat, g: Group, gs: seq<Group>)
    requires ms != [] && ms[0].I? && left > 0 && AllComplete(Groups(ms), left)
    requires g == Group(ms[0].ifc, OwnEnds(ms[1..])) && gs == Groups(ms[1..])
    ensures Groups(ms) == [g] + gs && Complete(g) && AllComplete(gs, left - 1)
  {
    RestComplete(Groups(ms), left);
    assert Groups(ms)[0] == g && Groups(ms)[1..] == gs;
  }

  lemma RestComplete(gs: seq<Group>, left: nat)
    requires gs != [] && left > 0 && AllComplete(gs, left)
    ensures Complete(gs[0]) && AllComplete(gs[1..], left - 1)
  {
  }

  /**
    For a descriptor sequence whose first bNumInterfaces interfaces have the endpoints they
    declare, the walk ends inside the bytes and reports the last bulk endpoints of the first
    accepted interface among them, or that there is none.
   */
  lemma FilterChooses(b: seq<Byte>, t: Target)
    requires Chain(b, 0)
    requires var ds := Parts(b, 0);
             HasHeaders(ds) ==> AllComplete(Groups(Marks(ds[2..])), ds[1][4])
    ensures var ds := Parts(b, 0);
            Filter(b, t) == if HasHeaders(ds) then Chosen(Groups(Marks(ds[2..])), ds[1][4], t) else NotFound
  {
    var ds := Parts(b, 0);
    FilterReports(b, t);
    if HasHeaders(ds) {
      ReportChosen(Marks(ds[2..]), ds[1][4], t);
    }
  }

  // ----- Interfaces that lack endpoints -----

  /** An interface is reached that lacks endpoints, and none before it is accepted. */
  ghost predicate RunsOut(vs: seq<Visit>, t: Target) {
    exists k :: 0 <= k < |vs| && Short(vs[k]) && forall j :: 0 <= j < k ==> !Accepts(t, vs[j].ifc)
  }

  lemma {:induction false} ReportOutside(vs: seq<Visit>, t: Target)
    ensures Report(vs, t) == Outside <==> RunsOut(vs, t)
  {
    if vs != [] && !Short(vs[0]) {
      ReportOutside(vs[1..], t);
      if RunsOut(vs[1..], t) && !Accepts(t, vs[0].ifc) {
        var k :| 0 <= k < |vs[1..]| && Short(vs[1..][k]) && forall j :: 0 <= j < k ==> !Accepts(t, vs[1..][j].ifc);
        assert Short(vs[k + 1]) && forall j :: 1 <= j < k + 1 ==> vs[j] == vs[1..][j - 1];
      }
      if RunsOut(vs, t) {
        var k :| 0 <= k < |vs| && Short(vs[k]) && forall j :: 0 <= j < k ==> !Accepts(t, vs[j].ifc);
        assert Short(vs[1..][k - 1]) && forall j :: 0 <= j < k - 1 ==> vs[1..][j] == vs[j + 1];
      }
    }
  }

  /**
    For every descriptor sequence, the walk reads past the end exactly when it reaches an
    interface that declares more endpoints than all the descriptors left contain, and has
    accepted no interface before.
   */
  lemma FilterOutside(b: seq<Byte>, t: Target)
    requires Chain(b, 0)
    ensures Filter(b, t) == Outside <==> HasHeaders(Parts(b, 0)) && RunsOut(VisitsOf(Parts(b, 0)), t)
  {
    FilterReports(b, t);
    if HasHeaders(Parts(b, 0)) {
      ReportOutside(VisitsOf(Parts(b, 0)), t);
    }
  }

  /** A device with one configuration and one interface that declares an endpoint, and no endpoint. */
  const TOO_FEW: seq<Byte> := [
    18, 1, 0, 2, 0, 0, 0, 64, 0, 0, 0, 0, 0, 0, 0, 0, 0, 1,
    9, 2, 27, 0, 1, 1, 0, 128, 50,
    9, 4, 0, 0, 1, 0xff, 0x42, 3, 0]

  lemma TooFewOutside(t: Target)
    ensures Chain(TOO_FEW, 0) && Filter(TOO_FEW, t) == Outside
  {
    var b := TOO_FEW;
    assert Chain(b, 36);
    assert Chain(b, 27);
    assert Chain(b, 18);
    assert Seek(b, 36, USB_DT_ENDPOINT, USB_DT_ENDPOINT_SIZE) == Some(36);
    assert Endpoints(b, 36, 1, -1, -1) == Broken(Outside);
    assert Seek(b, 27, USB_DT_INTERFACE, USB_DT_INTERFACE_SIZE) == Some(27);
    assert Interfaces(b, 27, 1, t) == Outside;
  }

  /**
    A device with four interfaces: one that differs from the fastboot interface in its class, one
    in its subclass, one in its protocol, and the fastboot interface, with an interrupt endpoint
    between its two bulk endpoints.
   */
  const DEVICE: seq<Byte> := [18, 1, 0, 2, 0, 0, 0, 64, 0, 0, 0, 0, 0, 0, 0, 0, 0, 1]
  const CONFIG: seq<Byte> := [9, 2, 66, 0, 4, 1, 0, 128, 50]
  const CLASS_DIFFERS: seq<Byte> := [9, 4, 0, 0, 0, 0xfe, 0x42, 3, 0]
  const SUBCLASS_DIFFERS: seq<Byte> := [9, 4, 1, 0, 0, 0xff, 0x43, 3, 0]
  const PROTOCOL_DIFFERS: seq<Byte> := [9, 4, 2, 0, 0, 0xff, 0x42, 1, 0]
  const FASTBOOT: seq<Byte> := [9, 4, 3, 0, 3, 0xff, 0x42, 3, 0]
  const IN: seq<Byte> := [7, 5, 0x81, 2, 0, 2, 0]
  const INTERRUPT: seq<Byte> := [7, 5, 0x82, 3, 8, 0, 4]
  const OUT: seq<Byte> := [7, 5, 0x01, 2, 0, 2, 0]

  /** The bytes from `at` on. */
  predicate Holds(b: seq<Byte>, at: nat, d: Descriptor) {
    at + |d| <= |b| && forall i :: 0 <= i < |d| ==> b[at + i] == d[i]
  }

  /** An interface that declares no endpoint and is not accepted is passed over. */
  lemma PassedOver(b: seq<Byte>, at: nat, d: Descriptor, left: nat, t: Target)
    requires |d| == 9 && d[0] == 9 && d[1] == 4 && d[4] == 0 && (d[5] != 0xff || d[6] != 0x42 || d[7] != 3) && Holds(b, at, d)
    ensures Interfaces(b, at, left + 1, t) == Interfaces(b, at + 9, left, t)
  {
    assert b[at] == d[0] && b[at + 1] == d[1] && b[at + 4] == d[4] && b[at + 5] == d[5] && b[at + 6] == d[6] && b[at + 7] == d[7];
    assert Seek(b, at, USB_DT_INTERFACE, USB_DT_INTERFACE_SIZE) == Some(at);
  }

  /** An endpoint with no companion behind it. */
  lemma Remembered(b: seq<Byte>, at: nat, d: Descriptor, left: nat, epIn: int, epOut: int)
    requires |d| == 7 && d[0] == 7 && d[1] == 5 && Holds(b, at, d) && (at + 8 < |b| ==> b[at + 8] != USB_DT_SS_ENDPOINT_COMP)
    ensures var e := Endpoint(d[2], d[3]);
            Endpoints(b, at, left + 1, epIn, epOut) == Endpoints(b, at + 7, left, Latest(e, true, epIn), Latest(e, false, epOut))
  {
    assert b[at] == d[0] && b[at + 1] == d[1] && b[at + 2] == d[2] && b[at + 3] == d[3];
    assert Seek(b, at, USB_DT_ENDPOINT, USB_DT_ENDPOINT_SIZE) == Some(at);
  }

  /** A companion behind a bulk endpoint is passed over as six bytes, however long it says it is. */
  lemma CompanionPassed(b: seq<Byte>, at: nat, epIn: int, epOut: int)
    requires at + 13 <= |b| && b[at] == 7 && b[at + 1] == 5 && b[at + 3] % 4 == 2
    requires b[at + 7] >= 6 && b[at + 8] == 0x30 && at + 7 + b[at + 7] <= |b|
    ensures Endpoints(b, at, 1, epIn, epOut) ==
            if b[at + 2] / 0x80 == 1 then Ends(at + 13, b[at + 2], epOut) else Ends(at + 13, epIn, b[at + 2])
  {
    assert Seek(b, at, USB_DT_ENDPOINT, USB_DT_ENDPOINT_SIZE) == Some(at);
    var e := EndpointAt(b, at);
    assert PastEndpoint(b, at) == at + 13;
    assert Endpoints(b, at + 13, 0, Latest(e, true, epIn), Latest(e, false, epOut))
        == Ends(at + 13, Latest(e, true, epIn), Latest(e, false, epOut));
  }

  lemma ByteAt(b: seq<Byte>, at: nat, d: Descriptor, i: nat)
    requires Holds(b, at, d) && i < |d|
    ensures at + i < |b| && b[at + i] == d[i]
  {
  }

  /** The bytes that the device reports. */
  predicate FourInterfaces(b: seq<Byte>) {
    && |b| == 84 && Holds(b, 0, DEVICE) && Holds(b, 18, CONFIG)
    && Holds(b, 27, CLASS_DIFFERS) && Holds(b, 36, SUBCLASS_DIFFERS) && Holds(b, 45, PROTOCOL_DIFFERS)
    && Holds(b, 54, FASTBOOT) && Holds(b, 63, IN) && Holds(b, 70, INTERRUPT) && Holds(b, 77, OUT)
  }

  lemma ThreeEndpoints(b: seq<Byte>)
    requires |b| == 84 && Holds(b, 63, IN) && Holds(b, 70, INTERRUPT) && Holds(b, 77, OUT)
    ensures Endpoints(b, 63, 3, -1, -1) == Ends(84, 0x81, 0x01)
  {
    ByteAt(b, 70, INTERRUPT, 1);
    ByteAt(b, 77, OUT, 1);
    Remembered(b, 63, IN, 2, -1, -1);
    Remembered(b, 70, INTERRUPT, 1, 0x81, -1);
    Remembered(b, 77, OUT, 0, 0x81, -1);
  }

  lemma FastbootVisited(b: seq<Byte>, at: nat, d: Descriptor, t: Target, ends: Ends)
    requires |d| == 9 && d[0] == 9 && d[1] == 4 && d[5] == 0xff && d[6] == 0x42 && d[7] == 3 && Holds(b, at, d)
    requires Endpoints(b, at + 9, d[4], -1, -1) == ends && ends.Ends?
    ensures Interfaces(b, at, 1, t) ==
            if t.wanted.None? || t.wanted.value == t.number || t.wanted.value == t.path
            then Found(ends.epIn, ends.epOut, d[2]) else NotFound
  {
    assert b[at] == d[0] && b[at + 1] == d[1] && b[at + 2] == d[2] && b[at + 4] == d[4];
    assert b[at + 5] == d[5] && b[at + 6] == d[6] && b[at + 7] == d[7];
    assert Seek(b, at, USB_DT_INTERFACE, USB_DT_INTERFACE_SIZE) == Some(at);
  }

  lemma ThreePassed(b: seq<Byte>, t: Target)
    requires Holds(b, 27, CLASS_DIFFERS) && Holds(b, 36, SUBCLASS_DIFFERS) && Holds(b, 45, PROTOCOL_DIFFERS)
    ensures Interfaces(b, 27, 4, t) == Interfaces(b, 54, 1, t)
  {
    PassedOver(b, 45, PROTOCOL_DIFFERS, 1, t);
    PassedOver(b, 36, SUBCLASS_DIFFERS, 2, t);
    PassedOver(b, 27, CLASS_DIFFERS, 3, t);
  }

  lemma LastVisited(b: seq<Byte>, t: Target)
    requires |b| == 84 && Holds(b, 54, FASTBOOT) && Holds(b, 63, IN) && Holds(b, 70, INTERRUPT) && Holds(b, 77, OUT)
    ensures Interfaces(b, 54, 1, t) ==
            if t.wanted.None? || t.wanted.value == t.number || t.wanted.value == t.path then Found(0x81, 0x01, 3) else NotFound
  {
    ThreeEndpoints(b);
    FastbootVisited(b, 54, FASTBOOT, t, Ends(84, 0x81, 0x01));
  }

  /** The walk passes over the first three and finds the fourth, if the serial number asked for is that of the device. */
  lemma FourthChosen(b: seq<Byte>, t: Target)
    requires FourInterfaces(b)
    ensures Filter(b, t) ==
            if t.wanted.None? || t.wanted.value == t.number || t.wanted.value == t.path then Found(0x81, 0x01, 3) else NotFound
  {
    LastVisited(b, t);
    ThreePassed(b, t);
    FromHeaders(b, DEVICE, CONFIG, t);
  }

  lemma FromHeaders(b: seq<Byte>, device: Descriptor, config: Descriptor, t: Target)
    requires |device| == 18 && device[0] == 18 && device[1] == 1 && Holds(b, 0, device)
    requires |config| == 9 && config[0] == 9 && config[1] == 2 && Holds(b, 18, config)
    ensures Filter(b, t) == Interfaces(b, 27, config[4], t)
  {
    ByteAt(b, 0, device, 0);
    ByteAt(b, 0, device, 1);
    ByteAt(b, 18, config, 0);
    ByteAt(b, 18, config, 1);
    ByteAt(b, 18, config, 4);
  }
}
