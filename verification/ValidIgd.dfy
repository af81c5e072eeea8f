/**
  UPNP_GetValidIGD: choosing a gateway among the discovered devices.

  A download and the two probes of a service are answers of the network. Each is asked at
  most once for a device and a service, so the answers are a table given beforehand.
 */
module ValidIgd {
  import opened Options
  import opened XmlDocument
  import opened CallFold
  import opened IgdDescription

  /** A discovered device, with its description if that can be downloaded. */
  datatype Device = Device(url: string, scopeId: nat, xml: Option<string>)

  /** What a service answers when it is asked for its status and its external address. */
  datatype Answer = Answer(connected: bool, address: bool)

  /** The answers by device; the flag says whether the second service is asked. */
  type Network = (nat, bool) -> Answer

  function Parsed(xml: string): Igd {
    Fold(Handle, NO_IGD, Read(xml, 0))
  }

  /** A device whose description overruns the data it is parsed into. */
  predicate Overruns(d: Device) {
    d.xml.Some? && HasLongOpen(Read(d.xml.value, 0))
  }

  /** The data with its two connection services exchanged. */
  function Swapped(d: Igd): Igd {
    d.(kept := d.kept.(first := d.kept.second, second := d.kept.first), tmp := d.kept.first)
  }

  // ---- What the caller is promised ----

  predicate Described(d: Device) {
    d.xml.Some?
  }

  predicate IsIgd(d: Device) {
    d.xml.Some? && Parsed(d.xml.value).kept.cif.serviceType == CIF_TYPE
  }

  predicate Reachable(a: Answer) {
    a.connected && a.address
  }

  predicate HasSecond(d: Device) {
    d.xml.Some? && Parsed(d.xml.value).kept.second.serviceType != ""
  }

  /** A gateway that is connected and has an address through one of its services. */
  predicate IsConnected(d: Device, net: Network, i: nat) {
    IsIgd(d) && (Reachable(net(i, false)) || (HasSecond(d) && Reachable(net(i, true))))
  }

  /** Whether device `i` meets the wish of the given degree: 1 is the best, 3 the least. */
  predicate Meets(devs: seq<Device>, net: Network, degree: nat, i: nat)
    requires i < |devs|
  {
    if degree == 1 then IsConnected(devs[i], net, i)
    else if degree == 2 then IsIgd(devs[i])
    else Described(devs[i])
  }

  ghost predicate NoneMeets(devs: seq<Device>, net: Network, degree: nat, below: nat)
    requires below <= |devs|
  {
    forall j :: 0 <= j < below ==> !Meets(devs, net, degree, j)
  }

  /** Device `i` is the earliest of the best degree any device meets. */
  ghost predicate Best(devs: seq<Device>, net: Network, degree: nat, i: nat) {
    && 1 <= degree <= 3 && i < |devs| && Meets(devs, net, degree, i)
    && NoneMeets(devs, net, degree, i)
    && NoneBetter(devs, net, degree)
  }

  ghost predicate NoneBetter(devs: seq<Device>, net: Network, degree: nat) {
    forall s :: 1 <= s < degree ==> NoneMeets(devs, net, s, |devs|)
  }

  lemma NoneBetterAt(devs: seq<Device>, net: Network, degree: nat, s: nat, i: nat)
    requires NoneBetter(devs, net, degree) && 1 <= s && i < |devs|
    ensures s < degree ==> !Meets(devs, net, s, i)
  {
    if s < degree {
      assert NoneMeets(devs, net, s, |devs|);
    }
  }

  /** The data left for device `i`: the answering service of a connected gateway comes first. */
  function DataFor(devs: seq<Device>, net: Network, degree: nat, i: nat): Igd
    requires i < |devs| && devs[i].xml.Some?
  {
    var d := Parsed(devs[i].xml.value);
    if degree == 1 && !Reachable(net(i, false)) then Swapped(d) else d
  }

  /** There is only one best device, so the promise determines the choice. */
  lemma BestUnique(devs: seq<Device>, net: Network, degree: nat, i: nat, degree': nat, i': nat)
    requires Best(devs, net, degree, i) && Best(devs, net, degree', i')
    ensures degree == degree' && i == i'
  {
    NoneBetterAt(devs, net, degree, degree', i');
    NoneBetterAt(devs, net, degree', degree, i);
  }

  // ---- The URLs built for a device ----

  /** The arguments a set of URLs is built from. */
  datatype UrlSet = UrlSet(data: Igd, url: string, scopeId: nat)

  class Urls {
    var built: nat
    var freed: nat
    var current: Option<UrlSet>

    /** Every set built has been freed but the current one. */
    ghost predicate Valid()
      reads this
    {
      built == freed + if current.Some? then 1 else 0
    }

    constructor ()
      ensures Valid() && current == None
    {
      built, freed, current := 0, 0, None;
    }

    /** GetUPNPUrls */
    method Build(data: Igd, dev: Device)
      requires Valid() && current == None
      modifies this
      ensures Valid() && current == Some(UrlSet(data, dev.url, dev.scopeId))
      ensures built == old(built) + 1 && freed == old(freed)
    {
      built := built + 1;
      current := Some(UrlSet(data, dev.url, dev.scopeId));
    }

    /** FreeUPNPUrls */
    method Free()
      requires Valid() && current.Some?
      modifies this
      ensures Valid() && current == None
      ensures built == old(built) && freed == old(freed) + 1
    {
      freed := freed + 1;
      current := None;
    }
  }

  /** memset 0 */
  method Clear(data: IgdData)
    modifies data
    ensures data.Contents() == Intact(NO_IGD)
  {
    data.overrun := false;
    data.curEltName, data.urlBase, data.presentationUrl, data.level := "", "", "", 0;
    data.cif, data.first, data.second, data.fc6, data.tmp := NO_SERVICE, NO_SERVICE, NO_SERVICE, NO_SERVICE, NO_SERVICE;
  }

  /** memset 0 and parserootdesc */
  method Parse(xml: string, data: IgdData)
    modifies data
    ensures data.Contents() == if HasLongOpen(Read(xml, 0)) then Overrun else Intact(Parsed(xml))
  {
    hide HasLongOpen, Handle, HandleIn;
    Clear(data);
    data.ParseRootDesc(xml);
    FoldIn(NO_IGD, Read(xml, 0));
  }

  /** The first step: which of the devices are gateways, unless a description overruns the data. */
  method FindGateways(devs: seq<Device>, data: IgdData) returns (isIgd: seq<bool>, overrun: bool)
    modifies data
    ensures overrun <==> exists i :: 0 <= i < |devs| && Overruns(devs[i])
    ensures !overrun ==> |isIgd| == |devs| && forall i :: 0 <= i < |devs| ==> isIgd[i] == IsIgd(devs[i])
    ensures (forall i :: 0 <= i < |devs| ==> !Described(devs[i])) ==> data.Contents() == old(data.Contents())
  {
    hide Parsed, CIF_TYPE, HasLongOpen, Read;
    isIgd, overrun := [], false;
    for i := 0 to |devs|
      invariant |isIgd| == i && forall j :: 0 <= j < i ==> isIgd[j] == IsIgd(devs[j])
      invariant !overrun && forall j :: 0 <= j < i ==> !Overruns(devs[j])
      invariant (forall j :: 0 <= j < i ==> !Described(devs[j])) ==> data.Contents() == old(data.Contents())
    {
      if devs[i].xml.Some? {
        Parse(devs[i].xml.value, data);
        if data.overrun {
          assert Overruns(devs[i]) && Described(devs[i]);
          overrun := true;
          return;
        }
        isIgd := isIgd + [data.cif.serviceType == CIF_TYPE];
      } else {
        isIgd := isIgd + [false];
      }
    }
  }

  /** One device with a description, at one degree of the search. */
  method TryDevice(devs: seq<Device>, net: Network, degree: nat, i: nat, isIgd: bool, urls: Urls, data: IgdData)
    returns (found: bool)
    requires 1 <= degree <= 3 && i < |devs| && devs[i].xml.Some? && isIgd == IsIgd(devs[i]) && !Overruns(devs[i])
    requires urls.Valid() && urls.current == None
    modifies urls, data
    ensures urls.Valid() && found == Meets(devs, net, degree, i)
    ensures data.Contents() == Intact(if found then DataFor(devs, net, degree, i) else NO_IGD)
    ensures urls.current == if found then Some(UrlSet(data.Value(), devs[i].url, devs[i].scopeId)) else None
  {
    hide Fold, Read, CIF_TYPE, HasLongOpen;
    Parse(devs[i].xml.value, data);
    if isIgd || degree >= 3 {
      urls.Build(data.Value(), devs[i]);
      if degree >= 2 {
        return true;
      }
      var answer := net(i, false);
      if answer.connected && answer.address {
        return true;
      }
      urls.Free();
      if data.second.serviceType != "" {
        data.tmp := data.first;
        data.first := data.second;
        data.second := data.tmp;
        urls.Build(data.Value(), devs[i]);
        answer := net(i, true);
        if answer.connected && answer.address {
          return true;
        }
        urls.Free();
      }
    }
    Clear(data);
    return false;
  }

  /** The result of the search; a description that overruns the data leaves it undefined. */
  datatype Choice = State(state: nat) | Undefined

  /**
    The result is undefined if and only if a description overruns the data. Otherwise it is the best
    degree any device meets, or 0; the data and the URLs are those of the earliest such device, and
    no other set of URLs is left behind.
   */
  method GetValidIgd(devs: seq<Device>, net: Network, urls: Urls, data: IgdData) returns (r: Choice)
    requires urls.Valid() && urls.current == None
    modifies urls, data
    ensures r.Undefined? <==> exists i :: 0 <= i < |devs| && Overruns(devs[i])
    ensures r.State? ==> urls.Valid() && (urls.current.Some? <==> r.state > 0)
    ensures r == State(0) ==>
      (forall i :: 0 <= i < |devs| ==> !Described(devs[i])) && data.Contents() == old(data.Contents())
    ensures r.State? && r.state > 0 ==> exists i: nat :: Chosen(devs, net, r.state, i, urls, data)
  {
    hide Parsed, IsIgd, HasLongOpen, Read;
    if devs == [] {
      return State(0);
    }
    var isIgd, overrun := FindGateways(devs, data);
    if overrun {
      return Undefined;
    }
    label Downloaded:
    var state := 1;
    while state <= 3
      invariant 1 <= state <= 4
      invariant urls.Valid() && urls.current == None
      invariant NoneBetter(devs, net, state)
      invariant (forall j :: 0 <= j < |devs| ==> !Described(devs[j])) ==> data.Contents() == old@Downloaded(data.Contents())
    {
      for i := 0 to |devs|
        invariant urls.Valid() && urls.current == None
        invariant NoneMeets(devs, net, state, i)
        invariant (forall j :: 0 <= j < |devs| ==> !Described(devs[j])) ==> data.Contents() == old@Downloaded(data.Contents())
      {
        if devs[i].xml.Some? {
          assert Described(devs[i]);
          var found := TryDevice(devs, net, state, i, isIgd[i], urls, data);
          if found {
            assert Best(devs, net, state, i);
            assert Chosen(devs, net, state, i, urls, data);
            return State(state);
          }
        } else {
          UndescribedMeetsNone(devs, net, state, i);
        }
      }
      state := state + 1;
    }
    assert NoneMeets(devs, net, 3, |devs|);
    assert forall i :: 0 <= i < |devs| ==> Described(devs[i]) == Meets(devs, net, 3, i);
    r := State(0);
  }

  /** Device `i` is the best, and the data and the URLs are its own. */
  ghost predicate Chosen(devs: seq<Device>, net: Network, degree: nat, i: nat, urls: Urls, data: IgdData)
    reads urls, data
  {
    && Best(devs, net, degree, i) && devs[i].xml.Some?
    && data.Contents() == Intact(DataFor(devs, net, degree, i))
    && urls.current == Some(UrlSet(data.Value(), devs[i].url, devs[i].scopeId))
  }

  lemma UndescribedMeetsNone(devs: seq<Device>, net: Network, degree: nat, i: nat)
    requires i < |devs| && !Described(devs[i])
    ensures !Meets(devs, net, degree, i)
  {
  }

  // ---- For the descriptions of real devices ----

  lemma {:induction false} SelectNone(services: seq<Service>, keep: Service -> bool)
    ensures Select(services, keep) == [] <==> forall i :: 0 <= i < |services| ==> !keep(services[i])
    decreases |services|
  {
    if services != [] {
      SelectNone(services[..|services| - 1], keep);
      var last := services[|services| - 1];
      assert forall i :: 0 <= i < |services| - 1 ==> services[i] == services[..|services| - 1][i];
    }
  }

  lemma InterfaceKept(services: seq<Service>, kept: Kept)
    requires KeptOf(NO_IGD.kept, services, kept)
    ensures kept.cif.serviceType == CIF_TYPE <==> HasInterface(services)
  {
    var isCif := (s: Service) => s.serviceType == CIF_TYPE;
    SelectNone(services, isCif);
    SelectHolds(services, isCif);
    assert |CIF_TYPE| == 55;
    hide CIF_TYPE, Select;
  }

  ghost predicate HasInterface(services: seq<Service>) {
    exists i :: 0 <= i < |services| && services[i].serviceType == CIF_TYPE
  }

  /** A device is taken for a gateway if and only if its description has an interface service, and
      its description overruns the data if and only if an element name has over 127 characters. */
  lemma GatewayDescription(prolog: string, root: Node, epilog: string, url: string, scopeId: nat)
    requires Prolog(prolog) && XmlDocument.Valid(root) && Plain(epilog)
    ensures var d := Device(url, scopeId, Some(prolog + Print(root) + epilog));
      && (Overruns(d) <==> !NamesFit(root))
      && (NamesFit(root) ==> (IsIgd(d) <==> HasInterface(Services(root, NO_SERVICE))))
  {
    hide Fold, Read, Print, Services, Prolog, Plain, XmlDocument.Valid, KeptOf, HasInterface, CIF_TYPE, HasLongOpen, NamesFit,
         LastText, EmptyTags;
    var xml := prolog + Print(root) + epilog;
    DescriptionParsed(prolog, root, epilog);
    FoldIn(NO_IGD, Read(xml, 0));
    if NamesFit(root) {
      InterfaceKept(Services(root, NO_SERVICE), Parsed(xml).kept);
    }
  }
}
