/**
  The reply of the SSDP daemon as read by getDevicesFromMiniSSDPD: a count, then for
  each device its URL, its type and its USN, each behind its length code.
 */
module SsdpReply {

  import opened CodeLength

  const SIZE: nat := 2048

  datatype Record = Record(url: seq<Byte>, st: seq<Byte>, usn: seq<Byte>)

  datatype Device = Device(url: seq<Byte>, st: seq<Byte>)

  // ---- The daemon's side ----

  ghost function Field(s: seq<Byte>): (f: seq<Byte>)
    ensures |f| > |s|
  {
    Code(|s|) + s
  }

  ghost function Frame(r: Record): seq<Byte> {
    Field(r.url) + Field(r.st) + Field(r.usn)
  }

  ghost function Frames(rs: seq<Record>): seq<Byte> {
    if rs == [] then [] else Frame(rs[0]) + Frames(rs[1..])
  }

  /** The devices of the records, last record first, in front of `devs`. */
  ghost function Listed(rs: seq<Record>, devs: seq<Device>): seq<Device> {
    if rs == [] then devs else Listed(rs[1..], [Device(rs[0].url, rs[0].st)] + devs)
  }

  // ---- The client's side ----

  function Slice(b: seq<Byte>, p: nat, n: nat): seq<Byte> {
    if p + n <= |b| then b[p..p + n] else []
  }

  /** The list after the remaining `count` turns of the loop from position `p`. */
  function Devices(b: seq<Byte>, p: nat, count: nat, devs: seq<Device>): seq<Device>
    decreases count
  {
    if count == 0 || p + 2 >= SIZE then devs else
    var url := Decode(b, p, 0);
    if url.next + url.value + 2 >= SIZE then devs else
    var st := Decode(b, url.next + url.value, 0);
    if st.next + st.value + 2 >= SIZE then devs else
    var devs' := [Device(Slice(b, url.next, url.value), Slice(b, st.next, st.value))] + devs;
    var usn := Decode(b, st.next + st.value, 0);
    if usn.next + usn.value > SIZE then devs' else
    Devices(b, usn.next + usn.value, count - 1, devs')
  }

  method ReadReply(b: seq<Byte>) returns (devs: seq<Device>)
    requires |b| == SIZE
    ensures devs == Devices(b, 1, b[0], [])
  {
    hide Decode;
    devs := [];
    var p: nat := 1;
    var i: nat := 0;
    while i < b[0]
      invariant 0 <= i <= b[0]
      invariant Devices(b, 1, b[0], []) == Devices(b, p, b[0] - i, devs)
    {
      if p + 2 >= SIZE {
        break;
      }
      var urlsize, url := ReadCode(b, p);
      if url + urlsize + 2 >= SIZE {
        break;
      }
      var stsize, st := ReadCode(b, url + urlsize);
      if st + stsize + 2 >= SIZE {
        break;
      }
      devs := [Device(b[url..url + urlsize], b[st..st + stsize])] + devs;
      var usnsize, usn := ReadCode(b, st + stsize);
      p := usn + usnsize;
      if p > SIZE {
        return;
      }
      i := i + 1;
    }
  }

  // ---- What comes back ----

  lemma HoldsFits(b: seq<Byte>, p: nat, s: seq<Byte>)
    requires Holds(b, p, s)
    ensures p + |s| <= |b|
  {
  }

  lemma FieldRead(b: seq<Byte>, p: nat, s: seq<Byte>)
    requires |b| == SIZE && Holds(b, p, Field(s))
    ensures var r := Decode(b, p, 0);
      r.value == |s| && r.next + |s| == p + |Field(s)| && Slice(b, r.next, |s|) == s
  {
    HoldsSplit(b, p, Code(|s|), s);
    CodeRead(b, p, |s|);
  }

  /** Where the type of the record at `p` ends. */
  ghost function TypeEnd(p: nat, r: Record): nat {
    p + |Field(r.url)| + |Field(r.st)|
  }

  /** One record: listed when its type ends more than two bytes before the end of the buffer. */
  lemma FrameRead(b: seq<Byte>, p: nat, r: Record, count: nat, devs: seq<Device>)
    requires |b| == SIZE && Holds(b, p, Frame(r)) && count > 0
    ensures Devices(b, p, count, devs) ==
      if TypeEnd(p, r) + 2 < SIZE
      then Devices(b, p + |Frame(r)|, count - 1, [Device(r.url, r.st)] + devs)
      else devs
  {
    hide Field, Code, Heads, Decode, Slice, Holds;
    HoldsSplit(b, p, Field(r.url) + Field(r.st), Field(r.usn));
    HoldsSplit(b, p, Field(r.url), Field(r.st));
    FieldRead(b, p, r.url);
    FieldRead(b, p + |Field(r.url)|, r.st);
    FieldRead(b, TypeEnd(p, r), r.usn);
    HoldsFits(b, p, Frame(r));
  }

  /** Whether the last record is within the margin the loop keeps at the end of the buffer. */
  ghost predicate LastFits(p: nat, rs: seq<Record>) {
    rs == [] || p + |Frames(rs)| - |Field(rs[|rs| - 1].usn)| + 2 < SIZE
  }

  lemma {:induction false} FramesEnd(rs: seq<Record>)
    requires rs != []
    ensures |Frames(rs)| >= |Field(rs[|rs| - 1].usn)| + 2
  {
    if |rs| > 1 {
      FramesEnd(rs[1..]);
    } else {
      assert Frames(rs[1..]) == [];
    }
  }

  lemma {:induction false} FramesRead(b: seq<Byte>, p: nat, rs: seq<Record>, devs: seq<Device>)
    requires |b| == SIZE && Holds(b, p, Frames(rs))
    ensures Devices(b, p, |rs|, devs) == Listed(if LastFits(p, rs) then rs else rs[..|rs| - 1], devs)
    decreases |rs|
  {
    hide Field, Code, Heads, Decode, Slice, Holds;
    if rs != [] {
      var rest := rs[1..];
      HoldsSplit(b, p, Frame(rs[0]), Frames(rest));
      FrameRead(b, p, rs[0], |rs|, devs);
      FramesRead(b, p + |Frame(rs[0])|, rest, [Device(rs[0].url, rs[0].st)] + devs);
      if rest != [] {
        FramesEnd(rest);
        assert rs[..|rs| - 1][1..] == rest[..|rest| - 1];
      }
    }
  }

  lemma {:induction false} ListedLength(rs: seq<Record>, devs: seq<Device>)
    ensures |Listed(rs, devs)| == |rs| + |devs|
  {
    if rs != [] {
      ListedLength(rs[1..], [Device(rs[0].url, rs[0].st)] + devs);
    }
  }

  lemma {:induction false} ListedAt(rs: seq<Record>, devs: seq<Device>, i: nat)
    requires i < |rs|
    ensures |Listed(rs, devs)| == |rs| + |devs|
    ensures Listed(rs, devs)[|rs| - 1 - i] == Device(rs[i].url, rs[i].st)
  {
    ListedLength(rs, devs);
    var devs' := [Device(rs[0].url, rs[0].st)] + devs;
    if i > 0 {
      ListedAt(rs[1..], devs', i - 1);
    } else {
      ListedTail(rs[1..], devs');
    }
  }

  lemma {:induction false} ListedTail(rs: seq<Record>, devs: seq<Device>)
    ensures |Listed(rs, devs)| == |rs| + |devs| && Listed(rs, devs)[|rs|..] == devs
  {
    if rs != [] {
      var devs' := [Device(rs[0].url, rs[0].st)] + devs;
      ListedTail(rs[1..], devs');
      var all := Listed(rs, devs);
      assert all[|rs|..] == all[|rs| - 1..][1..];
    }
  }

  /**
    A reply for any records that fits the buffer, whatever follows it there, is read as the
    (URL, type) pairs in reverse order if and only if the last type ends before the margin;
    otherwise just the last record is missing.
   */
  lemma ReplyRead(b: seq<Byte>, rs: seq<Record>)
    requires |b| == SIZE && |rs| < 256
    requires b[0] == |rs| && Holds(b, 1, Frames(rs))
    ensures Devices(b, 1, b[0], []) == Listed(rs, []) <==> LastFits(1, rs)
    ensures !LastFits(1, rs) ==> Devices(b, 1, b[0], []) == Listed(rs[..|rs| - 1], [])
  {
    FramesRead(b, 1, rs, []);
    ListedLength(rs, []);
    if rs != [] {
      ListedLength(rs[..|rs| - 1], []);
    }
  }
}
