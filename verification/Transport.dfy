/** The DNP3 transport function: an application fragment is cut into segments with a
    FIR/FIN/sequence header, and a receiver reassembles it from whatever arrives. */
module Transport {
  import opened Octets

  const MAX_TPDU_LENGTH: nat := 250
  const MAX_TPDU_PAYLOAD: nat := 249
  const FIN: Byte := 0x80
  const FIR: Byte := 0x40
  const SEQ: Byte := 0x3F

  datatype Tpdu = Tpdu(fir: bool, fin: bool, seqNo: nat, payload: Bytes)

  // ---- The header octet ----

  /** Only the lower six bits of the sequence number are sent. */
  function GetHeader(fir: bool, fin: bool, seqNo: nat): Byte {
    (if fir then FIR else 0) | (if fin then FIN else 0) | (SEQ & OctetOf(seqNo % 64))
  }

  function Encode(t: Tpdu): Bytes {
    [GetHeader(t.fir, t.fin, t.seqNo)] + t.payload
  }

  function Decode(raw: Bytes): Tpdu
    requires raw != []
  {
    Tpdu(raw[0] & FIR != 0, raw[0] & FIN != 0, (raw[0] & SEQ) as nat, raw[1..])
  }

  lemma HeaderBits(fir: bool, fin: bool, s: Byte)
    requires s & SEQ == s
    ensures var h := (if fir then FIR else 0) | (if fin then FIN else 0) | (SEQ & s);
            (h & FIR != 0 <==> fir) && (h & FIN != 0 <==> fin) && h & SEQ == s
  {}

  /** The header octet: FIN on top, FIR below it, and six bits of sequence number. */
  lemma HeaderLayout(fir: bool, fin: bool, seqNo: nat)
    ensures var h := GetHeader(fir, fin, seqNo);
            (h & 0x80 != 0 <==> fin) && (h & 0x40 != 0 <==> fir) && (h & 0x3F) as nat == seqNo % 64
  {
    SixBits(seqNo % 64);
    OctetOfNat(seqNo % 64);
    HeaderBits(fir, fin, OctetOf(seqNo % 64));
  }

  lemma DecodeEncode(t: Tpdu)
    requires t.seqNo < 64
    ensures Decode(Encode(t)) == t
  {
    assert t.seqNo % 64 == t.seqNo;
    SixBits(t.seqNo);
    OctetOfNat(t.seqNo);
    HeaderBits(t.fir, t.fin, OctetOf(t.seqNo));
  }

  lemma DecodedSeq(raw: Bytes)
    requires raw != []
    ensures Decode(raw).seqNo < 64
  {
    SmallMask(raw[0]);
  }

  lemma SmallMask(b: Byte)
    ensures (b & SEQ) as nat < 64
  {
    assert b & SEQ < 64;
  }

  // ---- The sender ----

  function Next(s: nat): nat { (s + 1) % 64 }

  function Chunk(data: Bytes, sent: nat): nat
    requires sent <= |data|
  {
    if |data| - sent < MAX_TPDU_PAYLOAD then |data| - sent else MAX_TPDU_PAYLOAD
  }

  function Segment(data: Bytes, sent: nat, s: nat): Tpdu
    requires sent < |data|
  {
    var n := Chunk(data, sent);
    Tpdu(sent == 0, sent + n == |data|, s, data[sent..sent + n])
  }

  /** The segments still to be sent once `sent` octets are out. */
  function Segments(data: Bytes, sent: nat, s: nat): seq<Tpdu>
    requires sent <= |data|
    decreases |data| - sent
  {
    if sent == |data| then []
    else [Segment(data, sent, s)] + Segments(data, sent + Chunk(data, sent), Next(s))
  }

  /** Segment i carries the octets from 249 i on, 249 of them unless it is the last; the
      first and the last are marked, and the numbers count modulo 64. */
  lemma {:induction false} SegmentAt(data: Bytes, sent: nat, s: nat, i: nat)
    requires sent <= |data| && s < 64 && i < |Segments(data, sent, s)|
    ensures var ts := Segments(data, sent, s);
            var from, last := sent + 249 * i, i == |ts| - 1;
            var to := if last then |data| else from + 249;
            && from < to <= |data| && to - from <= 249 && ts[i].payload == data[from..to]
            && (ts[i].fir <==> from == 0) && (ts[i].fin <==> last) && ts[i].seqNo == (s + i) % 64
    decreases i
  {
    if i > 0 {
      var next := sent + Chunk(data, sent);
      assert Segments(data, sent, s)[1..] == Segments(data, next, Next(s));
      SegmentAt(data, next, Next(s), i - 1);
      assert next == sent + 249;
      assert (Next(s) + (i - 1)) % 64 == (s + i) % 64;
    }
  }

  function Advance(s: nat, n: nat): nat { (s + n) % 64 }

  class TransportTx {
    const apdu: array<Byte>
    var numBytesSent: nat
    var numBytesToSend: nat
    var seqNo: nat
    /** The TPDUs handed to the lower layer, in order. */
    var transmitted: seq<Bytes>

    ghost predicate Valid()
      reads this
    {
      numBytesSent <= numBytesToSend <= apdu.Length && seqNo < 64
    }

    constructor (fragSize: nat)
      ensures Valid() && fresh(apdu) && apdu.Length == fragSize && transmitted == [] && seqNo == 0
    {
      apdu := new Byte[fragSize];
      numBytesSent, numBytesToSend, seqNo, transmitted := 0, 0, 0, [];
    }

    method CheckForSend() returns (done: bool)
      requires Valid()
      modifies this`numBytesSent, this`numBytesToSend, this`transmitted
      ensures Valid() && done == old(numBytesSent == numBytesToSend)
      ensures done ==> numBytesSent == numBytesToSend == 0 && transmitted == old(transmitted)
      ensures !done ==> numBytesToSend == old(numBytesToSend)
      ensures !done ==> var data := apdu[..numBytesToSend];
                        && transmitted == old(transmitted) + [Encode(Segment(data, old(numBytesSent), seqNo))]
                        && numBytesSent == old(numBytesSent) + Chunk(data, old(numBytesSent))
    {
      var remainder := numBytesToSend - numBytesSent;
      if remainder > 0 {
        ghost var data, sent := apdu[..numBytesToSend], numBytesSent;
        var numToSend := if remainder < MAX_TPDU_PAYLOAD then remainder else MAX_TPDU_PAYLOAD;
        var payload := apdu[numBytesSent..numBytesSent + numToSend];
        assert payload == data[sent..sent + numToSend];
        var fir := numBytesSent == 0;
        numBytesSent := numBytesSent + numToSend;
        var fin := numBytesSent == numBytesToSend;
        transmitted := transmitted + [[GetHeader(fir, fin, seqNo)] + payload];
        done := false;
      } else {
        numBytesSent, numBytesToSend := 0, 0;
        done := true;
      }
    }

    method Send(data: Bytes)
      requires Valid() && 0 < |data| <= apdu.Length
      modifies this`numBytesSent, this`numBytesToSend, this`transmitted, apdu
      ensures Valid() && numBytesToSend == |data| && apdu[..numBytesToSend] == data
      ensures numBytesSent == Chunk(data, 0)
      ensures transmitted == old(transmitted) + [Encode(Segment(data, 0, seqNo))]
    {
      forall i | 0 <= i < |data| { apdu[i] := data[i]; }
      numBytesToSend := |data|;
      numBytesSent := 0;
      assert apdu[..numBytesToSend] == data;
      var done := CheckForSend();
    }

    method SendSuccess() returns (done: bool)
      requires Valid()
      modifies this`numBytesSent, this`numBytesToSend, this`transmitted, this`seqNo
      ensures Valid() && seqNo == Next(old(seqNo)) && done == old(numBytesSent == numBytesToSend)
      ensures done ==> numBytesSent == numBytesToSend == 0 && transmitted == old(transmitted)
      ensures !done ==> numBytesToSend == old(numBytesToSend)
      ensures !done ==> var data := apdu[..numBytesToSend];
                        && transmitted == old(transmitted) + [Encode(Segment(data, old(numBytesSent), seqNo))]
                        && numBytesSent == old(numBytesSent) + Chunk(data, old(numBytesSent))
    {
      seqNo := (seqNo + 1) % 64;
      done := CheckForSend();
    }
  }

  function EncodeAll(ts: seq<Tpdu>): seq<Bytes> {
    if ts == [] then [] else [Encode(ts[0])] + EncodeAll(ts[1..])
  }

  lemma AdvanceNext(s: nat, n: nat)
    requires s < 64
    ensures Advance(Next(s), n) == Advance(s, n + 1) && Advance(s, 0) == s
  {}

  /** With out sent so far and s the number of the last segment, the rest leads to goal. */
  ghost predicate LeadsTo(data: Bytes, sent: nat, s: nat, out: seq<Bytes>, goal: seq<Bytes>, last: nat)
    requires sent <= |data|
  {
    var rest := Segments(data, sent, Next(s));
    out + EncodeAll(rest) == goal && Advance(Next(s), |rest|) == last
  }

  lemma LeadsToStep(data: Bytes, sent: nat, s: nat, out: seq<Bytes>, goal: seq<Bytes>, last: nat)
    requires sent <= |data| && LeadsTo(data, sent, s, out, goal, last)
    ensures sent == |data| ==> out == goal && Next(s) == last
    ensures sent < |data| ==>
      var out' := out + [Encode(Segment(data, sent, Next(s)))];
      LeadsTo(data, sent + Chunk(data, sent), Next(s), out', goal, last)
  {
    if sent == |data| {
      assert out + EncodeAll([]) == out;
      AdvanceNext(Next(s), 0);
    } else {
      SegmentsFirst(data, sent, Next(s), out);
    }
  }

  lemma SegmentsFirst(data: Bytes, sent: nat, s: nat, out: seq<Bytes>)
    requires sent < |data| && s < 64
    ensures var all, rest := Segments(data, sent, s), Segments(data, sent + Chunk(data, sent), Next(s));
            && out + EncodeAll(all) == out + [Encode(Segment(data, sent, s))] + EncodeAll(rest)
            && Advance(s, |all|) == Advance(Next(s), |rest|)
  {
    var all, rest := Segments(data, sent, s), Segments(data, sent + Chunk(data, sent), Next(s));
    assert all[1..] == rest;
    AdvanceNext(s, |rest|);
  }

  /** A whole fragment, every segment acknowledged in turn, goes out as its segments. */
  method TransmitFragment(tx: TransportTx, data: Bytes)
    requires tx.Valid() && 0 < |data| <= tx.apdu.Length
    modifies tx, tx.apdu
    ensures tx.Valid() && tx.numBytesSent == tx.numBytesToSend == 0
    ensures var ts := Segments(data, 0, old(tx.seqNo));
            && tx.transmitted == old(tx.transmitted) + EncodeAll(ts)
            && tx.seqNo == Advance(old(tx.seqNo), |ts|)
  {
    ghost var goal := tx.transmitted + EncodeAll(Segments(data, 0, tx.seqNo));
    ghost var last := Advance(tx.seqNo, |Segments(data, 0, tx.seqNo)|);
    SegmentsFirst(data, 0, tx.seqNo, tx.transmitted);
    tx.Send(data);
    var done := false;
    while !done
      invariant tx.Valid()
      invariant !done ==> tx.numBytesToSend == |data| && tx.apdu[..|data|] == data
      invariant !done ==> LeadsTo(data, tx.numBytesSent, tx.seqNo, tx.transmitted, goal, last)
      invariant done ==> tx.numBytesSent == tx.numBytesToSend == 0 && tx.transmitted == goal && tx.seqNo == last
      decreases !done, tx.numBytesToSend - tx.numBytesSent
    {
      LeadsToStep(data, tx.numBytesSent, tx.seqNo, tx.transmitted, goal, last);
      done := tx.SendSuccess();
    }
  }

  // ---- The receiver ----

  datatype Receiver = Receiver(held: Bytes, expected: nat)

  /** ValidateHeader: whether the segment is taken, and the state it leaves. */
  function Validate(r: Receiver, t: Tpdu): (Receiver, bool) {
    if !t.fir && r.held == [] then (r, false)
    else
      var r' := if t.fir then Receiver([], t.seqNo) else r;
      (r', (t.fin || |t.payload| == MAX_TPDU_PAYLOAD) && t.seqNo == r'.expected)
  }

  function Receive(size: nat, r: Receiver, t: Tpdu): (Receiver, Option<Bytes>) {
    var (v, ok) := Validate(r, t);
    if !ok then (v, None)
    else if |v.held| + |t.payload| > size then (v.(held := []), None)
    else
      var all := v.held + t.payload;
      if t.fin then (Receiver([], Next(v.expected)), Some(all))
      else (Receiver(all, Next(v.expected)), None)
  }

  datatype Outcome = Handled | NoPayload | IllegalLength

  class TransportRx {
    const buffer: array<Byte>
    var numBytesRead: nat
    var seqNo: nat
    /** The fragments handed to the upper layer, in order. */
    var delivered: seq<Bytes>

    ghost predicate Valid()
      reads this
    {
      numBytesRead <= buffer.Length && seqNo < 64
    }

    ghost function State(): Receiver
      reads this, buffer
      requires Valid()
    {
      Receiver(buffer[..numBytesRead], seqNo)
    }

    constructor (fragSize: nat)
      ensures Valid() && fresh(buffer) && buffer.Length == fragSize
      ensures State() == Receiver([], 0) && delivered == []
    {
      buffer := new Byte[fragSize];
      numBytesRead, seqNo, delivered := 0, 0, [];
    }

    method Reset()
      requires Valid()
      modifies this`numBytesRead, this`seqNo
      ensures Valid() && State() == Receiver([], 0)
    {
      numBytesRead, seqNo := 0, 0;
    }

    method ValidateHeader(t: Tpdu) returns (ok: bool)
      requires Valid() && t.seqNo < 64
      modifies this`numBytesRead, this`seqNo
      ensures Valid() && (State(), ok) == Validate(old(State()), t)
    {
      if t.fir {
        seqNo := t.seqNo;
        if numBytesRead > 0 { numBytesRead := 0; }
      } else if numBytesRead == 0 {
        return false;
      }
      if !t.fin && |t.payload| != MAX_TPDU_PAYLOAD { return false; }
      if t.seqNo != seqNo { return false; }
      return true;
    }

    /** One received TPDU; the two length errors leave everything as it was. */
    method HandleReceive(raw: Bytes) returns (o: Outcome)
      requires Valid()
      modifies this, buffer
      ensures Valid()
      ensures o == if |raw| == 1 then NoPayload
                   else if |raw| == 0 || |raw| > MAX_TPDU_LENGTH then IllegalLength
                   else Handled
      ensures !o.Handled? ==> State() == old(State()) && delivered == old(delivered)
      ensures o.Handled? ==> var (r, d) := Receive(buffer.Length, old(State()), Decode(raw));
                State() == r && delivered == old(delivered) + (if d.Some? then [d.value] else [])
    {
      if |raw| == 1 { return NoPayload; }
      if |raw| == 0 || |raw| > MAX_TPDU_LENGTH { return IllegalLength; }
      var t := Decode(raw);
      DecodedSeq(raw);
      o := Handled;
      var ok := ValidateHeader(t);
      if ok {
        ghost var held := buffer[..numBytesRead];
        if buffer.Length - numBytesRead < |t.payload| {
          numBytesRead := 0;
        } else {
          forall i | 0 <= i < |t.payload| { buffer[numBytesRead + i] := t.payload[i]; }
          numBytesRead := numBytesRead + |t.payload|;
          assert buffer[..numBytesRead] == held + t.payload;
          seqNo := (seqNo + 1) % 64;
          if t.fin {
            var n := numBytesRead;
            numBytesRead := 0;
            delivered := delivered + [buffer[..n]];
          }
        }
      }
    }
  }

  // ---- Any TPDUs whatever ----

  /** The receiver after TPDUs that need not come from any sender. */
  function After(size: nat, ts: seq<Tpdu>): Receiver
    decreases |ts|
  {
    if ts == [] then Receiver([], 0) else Receive(size, After(size, ts[..|ts| - 1]), ts[|ts| - 1]).0
  }

  /** A segment that may follow one numbered s. */
  predicate Follows(t: Tpdu, s: nat) {
    !t.fir && t.seqNo == Next(s) && (t.fin || |t.payload| == 249)
  }

  ghost predicate Places(ts: seq<Tpdu>, ks: seq<nat>) {
    && (forall i :: 0 <= i < |ks| ==> ks[i] < |ts|)
    && (forall i, j :: 0 <= i < j < |ks| ==> ks[i] < ks[j])
  }

  /** A FIR segment, and behind it segments that each follow the one before, all full and
      none final. */
  ghost predicate Linked(ts: seq<Tpdu>, ks: seq<nat>)
    requires Places(ts, ks)
  {
    && (ks != [] ==> ts[ks[0]].fir)
    && (forall i :: 0 <= i < |ks| ==> !ts[ks[i]].fin && |ts[ks[i]].payload| == 249)
    && (forall i :: 1 <= i < |ks| ==> Follows(ts[ks[i]], ts[ks[i - 1]].seqNo))
  }

  /** Where the stretch behind the TPDU at ks[i] ends. */
  function Until(n: nat, ks: seq<nat>, i: nat): nat { if i + 1 < |ks| then ks[i + 1] else n }

  /** No FIR segment and none that follows is left out. */
  ghost predicate NoneLeftOut(ts: seq<Tpdu>, ks: seq<nat>)
    requires Places(ts, ks)
  {
    forall i, j :: 0 <= i < |ks| && ks[i] < j < Until(|ts|, ks, i) && j < |ts| ==>
      !ts[j].fir && !Follows(ts[j], ts[ks[i]].seqNo)
  }

  /** The places of a fragment under way, with no more than fits. */
  ghost predicate Chain(size: nat, ts: seq<Tpdu>, ks: seq<nat>) {
    ks != [] && Places(ts, ks) && Linked(ts, ks) && NoneLeftOut(ts, ks) && |ks| * 249 <= size
  }

  function Joined(ts: seq<Tpdu>, ks: seq<nat>): Bytes
    requires forall i :: 0 <= i < |ks| ==> ks[i] < |ts|
  {
    if ks == [] then [] else Joined(ts, ks[..|ks| - 1]) + ts[ks[|ks| - 1]].payload
  }

  /** The receiver holds something exactly when there is such a chain, and then its payloads. */
  ghost predicate HoldsChain(size: nat, ts: seq<Tpdu>, r: Receiver) {
    && (r.held != [] <==> exists ks :: Chain(size, ts, ks))
    && (forall ks :: Chain(size, ts, ks) ==> r.held == Joined(ts, ks) && r.expected == Next(ts[ks[|ks| - 1]].seqNo))
  }

  lemma {:induction false} JoinedMore(ts: seq<Tpdu>, t: Tpdu, ks: seq<nat>)
    requires forall i :: 0 <= i < |ks| ==> ks[i] < |ts|
    ensures Joined(ts + [t], ks) == Joined(ts, ks)
    decreases |ks|
  {
    if ks != [] { JoinedMore(ts, t, ks[..|ks| - 1]); }
  }

  lemma {:induction false} JoinedSize(size: nat, ts: seq<Tpdu>, ks: seq<nat>)
    requires forall i :: 0 <= i < |ks| ==> ks[i] < |ts| && |ts[ks[i]].payload| == 249
    ensures |Joined(ts, ks)| == 249 * |ks|
    decreases |ks|
  {
    if ks != [] { JoinedSize(size, ts, ks[..|ks| - 1]); }
  }

  lemma LinkedMore(ts: seq<Tpdu>, t: Tpdu, ks: seq<nat>)
    requires Places(ts, ks)
    ensures Places(ts + [t], ks) && (Linked(ts + [t], ks) <==> Linked(ts, ks))
  {
    hide Follows;
    var us := ts + [t];
    assert forall i :: 0 <= i < |ks| ==> us[ks[i]] == ts[ks[i]];
    if Linked(us, ks) {
      forall i | 1 <= i < |ks| ensures Follows(ts[ks[i]], ts[ks[i - 1]].seqNo) {
        assert Follows(us[ks[i]], us[ks[i - 1]].seqNo);
      }
    }
  }

  lemma LeftOutMore(ts: seq<Tpdu>, t: Tpdu, ks: seq<nat>)
    requires Places(ts, ks) && Places(ts + [t], ks) && ks != []
    ensures NoneLeftOut(ts + [t], ks) <==>
              NoneLeftOut(ts, ks) && !t.fir && !Follows(t, ts[ks[|ks| - 1]].seqNo)
  {
    hide Follows;
    var us, last := ts + [t], |ks| - 1;
    if NoneLeftOut(us, ks) {
      assert us[|ts|] == t && us[ks[last]] == ts[ks[last]] && ks[last] < |ts| < Until(|us|, ks, last);
      forall i, j | 0 <= i < |ks| && ks[i] < j < Until(|ts|, ks, i) && j < |ts|
        ensures !ts[j].fir && !Follows(ts[j], ts[ks[i]].seqNo)
      {
        assert us[j] == ts[j] && us[ks[i]] == ts[ks[i]] && j < Until(|us|, ks, i);
      }
    }
    if NoneLeftOut(ts, ks) && !t.fir && !Follows(t, ts[ks[last]].seqNo) {
      forall i, j | 0 <= i < |ks| && ks[i] < j < Until(|us|, ks, i) && j < |us|
        ensures !us[j].fir && !Follows(us[j], us[ks[i]].seqNo)
      {
        assert us[ks[i]] == ts[ks[i]];
        if j < |ts| {
          assert us[j] == ts[j] && j < Until(|ts|, ks, i);
        } else {
          assert i == last && us[j] == t;
        }
      }
      assert NoneLeftOut(us, ks);
    }
  }

  /** A chain that does not reach the last TPDU was one before, and passes it over. */
  lemma ChainBefore(size: nat, ts: seq<Tpdu>, t: Tpdu, ks: seq<nat>)
    requires Places(ts, ks)
    ensures Chain(size, ts + [t], ks) <==>
              Chain(size, ts, ks) && !t.fir && !Follows(t, ts[ks[|ks| - 1]].seqNo)
  {
    hide Follows, Places, Linked, NoneLeftOut;
    LinkedMore(ts, t, ks);
    if ks != [] { LeftOutMore(ts, t, ks); }
  }

  lemma LinkedLast(ts: seq<Tpdu>, t: Tpdu, init: seq<nat>)
    requires Places(ts, init)
    ensures var ks := init + [|ts|];
            && Places(ts + [t], ks)
            && (Linked(ts + [t], ks) <==>
                  && !t.fin && |t.payload| == 249 && Linked(ts, init)
                  && if init == [] then t.fir else Follows(t, ts[init[|init| - 1]].seqNo))
  {
    hide Follows;
    var us, ks, n := ts + [t], init + [|ts|], |init|;
    assert forall i :: 0 <= i < n ==> ks[i] == init[i] && us[ks[i]] == ts[init[i]];
    assert ks[n] == |ts| && us[ks[n]] == t;
    if Linked(us, ks) {
      forall i | 1 <= i < n ensures Follows(ts[init[i]], ts[init[i - 1]].seqNo) {
        assert Follows(us[ks[i]], us[ks[i - 1]].seqNo);
      }
      assert n > 0 ==> Follows(us[ks[n]], us[ks[n - 1]].seqNo);
    }
  }

  lemma LeftOutLast(ts: seq<Tpdu>, t: Tpdu, init: seq<nat>)
    requires Places(ts, init) && Places(ts + [t], init + [|ts|])
    ensures NoneLeftOut(ts + [t], init + [|ts|]) <==> NoneLeftOut(ts, init)
  {
    hide Follows;
    var us, ks, n := ts + [t], init + [|ts|], |init|;
    assert forall i :: 0 <= i < n ==> ks[i] == init[i] && Until(|us|, ks, i) == Until(|ts|, init, i);
    if NoneLeftOut(us, ks) {
      forall i, j | 0 <= i < n && init[i] < j < Until(|ts|, init, i) && j < |ts|
        ensures !ts[j].fir && !Follows(ts[j], ts[init[i]].seqNo)
      {
        assert us[j] == ts[j] && us[ks[i]] == ts[init[i]] && ks[i] < j < Until(|us|, ks, i);
      }
    }
    if NoneLeftOut(ts, init) {
      forall i, j | 0 <= i < |ks| && ks[i] < j < Until(|us|, ks, i) && j < |us|
        ensures !us[j].fir && !Follows(us[j], us[ks[i]].seqNo)
      {
        assert i < n && init[i] < j < Until(|ts|, init, i) && us[j] == ts[j] && us[ks[i]] == ts[init[i]];
      }
    }
  }

  /** A chain that reaches the last TPDU is that TPDU alone, or a chain before that it follows. */
  lemma ChainLast(size: nat, ts: seq<Tpdu>, t: Tpdu, init: seq<nat>)
    requires Places(ts, init)
    ensures Chain(size, ts + [t], init + [|ts|]) <==>
              && !t.fin && |t.payload| == 249 && (|init| + 1) * 249 <= size
              && if init == [] then t.fir else Chain(size, ts, init) && Follows(t, ts[init[|init| - 1]].seqNo)
  {
    LinkedLast(ts, t, init);
    LeftOutLast(ts, t, init);
    hide Follows, NoneLeftOut, Linked, Places;
    if init == [] { NothingLinked(ts); }
  }

  lemma NothingLinked(ts: seq<Tpdu>)
    ensures Places(ts, []) && Linked(ts, []) && NoneLeftOut(ts, [])
  {
  }

  /** Every chain is what the receiver holds. */
  lemma ChainHeld(size: nat, ts: seq<Tpdu>, r: Receiver, t: Tpdu, ks: seq<nat>)
    requires HoldsChain(size, ts, r) && Chain(size, ts + [t], ks)
    ensures var q := Receive(size, r, t).0;
            q.held == Joined(ts + [t], ks) && q.held != [] && q.expected == Next((ts + [t])[ks[|ks| - 1]].seqNo)
  {
    hide Chain, Places, HoldsChain, Receive, Follows;
    var us, n := ts + [t], |ks| - 1;
    ChainParts(size, us, ks);
    PlacesFewer(ts, t, ks);
    if ks[n] < |ts| {
      ChainBefore(size, ts, t, ks);
      JoinedMore(ts, t, ks);
      HeldPassesOver(size, ts, r, t, ks);
    } else {
      var init := ks[..n];
      assert ks == init + [|ts|];
      ChainLast(size, ts, t, init);
      JoinedMore(ts, t, init);
      if init != [] { HeldGrows(size, ts, r, t, init); } else { HeldStarts(size, r, t); }
    }
  }

  lemma HeldPassesOver(size: nat, ts: seq<Tpdu>, r: Receiver, t: Tpdu, ks: seq<nat>)
    requires HoldsChain(size, ts, r) && Chain(size, ts, ks) && !t.fir && !Follows(t, ts[ks[|ks| - 1]].seqNo)
    ensures Receive(size, r, t).0 == r && r.held != []
    ensures r.held == Joined(ts, ks) && r.expected == Next(ts[ks[|ks| - 1]].seqNo)
  {
    hide Chain;
  }

  lemma HeldGrows(size: nat, ts: seq<Tpdu>, r: Receiver, t: Tpdu, ks: seq<nat>)
    requires HoldsChain(size, ts, r) && Chain(size, ts, ks) && Follows(t, ts[ks[|ks| - 1]].seqNo)
    requires !t.fin && (|ks| + 1) * 249 <= size
    ensures Places(ts, ks)
    ensures Receive(size, r, t).0 == Receiver(Joined(ts, ks) + t.payload, Next(t.seqNo)) && t.payload != []
  {
    hide Chain, Places;
    ChainParts(size, ts, ks);
    JoinedSize(size, ts, ks);
  }

  lemma HeldStarts(size: nat, r: Receiver, t: Tpdu)
    requires t.fir && !t.fin && |t.payload| == 249 <= size
    ensures Receive(size, r, t).0 == Receiver([] + t.payload, Next(t.seqNo)) && t.payload != []
  {
  }

  lemma PlacesFewer(ts: seq<Tpdu>, t: Tpdu, ks: seq<nat>)
    requires Places(ts + [t], ks) && ks != []
    ensures Places(ts, if ks[|ks| - 1] < |ts| then ks else ks[..|ks| - 1])
  {
  }

  lemma ChainParts(size: nat, ts: seq<Tpdu>, ks: seq<nat>)
    requires Chain(size, ts, ks)
    ensures Places(ts, ks)
    ensures ks != [] && (forall i :: 0 <= i < |ks| ==> ks[i] < |ts| && |ts[ks[i]].payload| == 249)
    ensures forall i :: 0 <= i < |ks| - 1 ==> ks[i] < ks[|ks| - 1]
    ensures |ks| * 249 <= size
  {
  }

  /** What the receiver holds is a chain. */
  lemma HeldIsChain(size: nat, ts: seq<Tpdu>, r: Receiver, t: Tpdu)
    requires HoldsChain(size, ts, r) && Receive(size, r, t).0.held != []
    ensures exists ks :: Chain(size, ts + [t], ks)
  {
    hide Chain, Places;
    if t.fir {
      NothingLinked(ts);
      ChainLast(size, ts, t, []);
      assert Chain(size, ts + [t], [] + [|ts|]);
    } else {
      var ks: seq<nat> :| Chain(size, ts, ks);
      ChainParts(size, ts, ks);
      JoinedSize(size, ts, ks);
      if Follows(t, ts[ks[|ks| - 1]].seqNo) {
        ChainLast(size, ts, t, ks);
        assert Chain(size, ts + [t], ks + [|ts|]);
      } else {
        ChainBefore(size, ts, t, ks);
      }
    }
  }

  lemma {:induction false} AfterHoldsChain(size: nat, ts: seq<Tpdu>)
    ensures HoldsChain(size, ts, After(size, ts))
    decreases |ts|
  {
    hide Receive;
    if ts != [] {
      var init, t := ts[..|ts| - 1], ts[|ts| - 1];
      assert ts == init + [t];
      AfterHoldsChain(size, init);
      var r := After(size, init);
      hide Chain, Places;
      forall ks | Chain(size, ts, ks)
        ensures After(size, ts).held == Joined(ts, ks) && After(size, ts).held != []
        ensures After(size, ts).expected == Next(ts[ks[|ks| - 1]].seqNo)
      {
        ChainHeld(size, init, r, t, ks);
      }
      if After(size, ts).held != [] { HeldIsChain(size, init, r, t); }
    }
  }

  /** Whatever has arrived, and from wherever: a TPDU makes the receiver deliver a fragment if
      and only if it is final and either first too, or follows on a chain; then the fragment
      is the payloads of the chain and its own, if they fit. */
  lemma DeliversIff(size: nat, ts: seq<Tpdu>, t: Tpdu, d: Bytes)
    ensures Receive(size, After(size, ts), t).1 == Some(d) <==>
              && t.fin && |d| <= size
              && if t.fir then d == t.payload
                 else exists ks :: Chain(size, ts, ks) && Follows(t, ts[ks[|ks| - 1]].seqNo)
                        && d == Joined(ts, ks) + t.payload
  {
    hide Chain, Places;
    var r := After(size, ts);
    AfterHoldsChain(size, ts);
    if t.fir {
      assert [] + t.payload == t.payload;
    } else if r.held != [] {
      var ks: seq<nat> :| Chain(size, ts, ks);
      ChainParts(size, ts, ks);
      assert r.held == Joined(ts, ks);
    }
  }

  // ---- A channel that loses TPDUs ----

  /** The receiver fed with the TPDUs that were kept, and what it delivers. */
  function Run(size: nat, r: Receiver, ts: seq<Tpdu>, kept: seq<bool>): (Receiver, seq<Bytes>)
    requires |ts| == |kept|
    decreases |ts|
  {
    if ts == [] then (r, [])
    else
      var (r1, d) := Arrive(size, r, ts[0], kept[0]);
      var (r2, ds) := Run(size, r1, ts[1..], kept[1..]);
      (r2, Listed(d) + ds)
  }

  function Arrive(size: nat, r: Receiver, t: Tpdu, kept: bool): (Receiver, Option<Bytes>) {
    if kept then Receive(size, r, t) else (r, None)
  }

  function Listed(d: Option<Bytes>): seq<Bytes> {
    if d.Some? then [d.value] else []
  }

  lemma RunStep(size: nat, r: Receiver, t: Tpdu, rest: seq<Tpdu>, kept: seq<bool>)
    requires |kept| == |rest| + 1
    ensures var (r1, d) := Arrive(size, r, t, kept[0]);
            var (r2, ds) := Run(size, r1, rest, kept[1..]);
            Run(size, r, [t] + rest, kept) == (r2, Listed(d) + ds)
    ensures AllKept(kept) <==> kept[0] && AllKept(kept[1..])
  {
    assert ([t] + rest)[1..] == rest;
    assert kept == [kept[0]] + kept[1..];
  }

  /** Everything a sender transmits for a list of fragments. */
  function Stream(apdus: seq<Bytes>, s: nat): seq<Tpdu> {
    if apdus == [] then []
    else
      var ts := Segments(apdus[0], 0, s);
      ts + Stream(apdus[1..], Advance(s, |ts|))
  }

  /** What the receiver holds, reckoned from the loss pattern and the lengths alone: nothing,
      or some octets, missed TPDUs after the last one it took, which are the whole of their
      fragment so far or have a gap. */
  datatype Mark = Nothing | Part(length: nat, missed: nat, whole: bool)

  /** Sequence numbers have six bits: a continuation 64 TPDUs late looks like the next one. */
  predicate Takes(t: Tpdu, m: Mark) {
    t.fir || (m.Part? && m.missed % 64 == 0)
  }

  function Grown(t: Tpdu, m: Mark): nat
    requires Takes(t, m)
  {
    (if t.fir then 0 else m.length) + |t.payload|
  }

  function Note(size: nat, t: Tpdu, kept: bool, m: Mark): Mark {
    if !kept || !Takes(t, m) then (if m.Part? then Part(m.length, m.missed + 1, false) else Nothing)
    else if Grown(t, m) > size || t.fin then Nothing
    else Part(Grown(t, m), 0, t.fir || m.whole)
  }

  function MarkAfter(size: nat, ts: seq<Tpdu>, kept: seq<bool>, m: Mark): Mark
    requires |ts| == |kept|
    decreases |ts|
  {
    if ts == [] then m else MarkAfter(size, ts[1..], kept[1..], Note(size, ts[0], kept[0], m))
  }

  /** A final segment that closes a fragment with a gap in it. */
  predicate Splice(size: nat, t: Tpdu, kept: bool, m: Mark) {
    kept && !t.fir && t.fin && Takes(t, m) && !m.whole && Grown(t, m) <= size
  }

  /** How many fragments with a gap the pattern lets through. */
  function Splices(size: nat, ts: seq<Tpdu>, kept: seq<bool>, m: Mark): nat
    requires |ts| == |kept|
    decreases |ts|
  {
    if ts == [] then 0
    else
      (if Splice(size, ts[0], kept[0], m) then 1 else 0)
      + Splices(size, ts[1..], kept[1..], Note(size, ts[0], kept[0], m))
  }

  ghost predicate AllKept(kept: seq<bool>) {
    forall i :: 0 <= i < |kept| ==> kept[i]
  }

  /** The fragments every segment of which arrived and that fit the receiver's buffer. */
  ghost function Survivors(size: nat, apdus: seq<Bytes>, s: nat, kept: seq<bool>): seq<Bytes>
    requires |kept| == |Stream(apdus, s)|
    decreases |apdus|
  {
    if apdus == [] then []
    else
      var n := |Segments(apdus[0], 0, s)|;
      (if AllKept(kept[..n]) && |apdus[0]| <= size then [apdus[0]] else [])
      + Survivors(size, apdus[1..], Advance(s, n), kept[n..])
  }

  /** The mark describes the receiver when the next TPDU sent is numbered s. */
  ghost predicate Marks(m: Mark, r: Receiver, s: nat) {
    && r.expected < 64
    && match m
       case Nothing => r.held == []
       case Part(length, missed, whole) =>
         0 < |r.held| == length && s == Advance(r.expected, missed) && (whole ==> missed == 0)
  }

  lemma {:induction false} RunAppend(size: nat, r: Receiver, a: seq<Tpdu>, b: seq<Tpdu>, ka: seq<bool>, kb: seq<bool>)
    requires |a| == |ka| && |b| == |kb|
    ensures var (r1, d1) := Run(size, r, a, ka);
            var (r2, d2) := Run(size, r1, b, kb);
            Run(size, r, a + b, ka + kb) == (r2, d1 + d2)
    decreases |a|
  {
    if a == [] {
      assert a + b == b && ka + kb == kb;
      assert [] + Run(size, r, b, kb).1 == Run(size, r, b, kb).1;
    } else {
      assert (a + b)[1..] == a[1..] + b && (ka + kb)[1..] == ka[1..] + kb;
      var (r0, d) := Arrive(size, r, a[0], ka[0]);
      RunAppend(size, r0, a[1..], b, ka[1..], kb);
      var (r1, d1) := Run(size, r0, a[1..], ka[1..]);
      var (r2, d2) := Run(size, r1, b, kb);
      assert Listed(d) + d1 + d2 == Listed(d) + (d1 + d2);
    }
  }

  lemma {:induction false} SplicesAppend(size: nat, a: seq<Tpdu>, b: seq<Tpdu>, ka: seq<bool>, kb: seq<bool>, m: Mark)
    requires |a| == |ka| && |b| == |kb|
    ensures Splices(size, a + b, ka + kb, m)
            == Splices(size, a, ka, m) + Splices(size, b, kb, MarkAfter(size, a, ka, m))
    decreases |a|
  {
    if a == [] {
      assert a + b == b && ka + kb == kb;
    } else {
      assert (a + b)[1..] == a[1..] + b && (ka + kb)[1..] == ka[1..] + kb;
      SplicesAppend(size, a[1..], b, ka[1..], kb, Note(size, a[0], ka[0], m));
    }
  }

  /** A segment as the sender makes them. */
  predicate Regular(t: Tpdu) {
    t.seqNo < 64 && 0 < |t.payload| && (t.fin || |t.payload| == MAX_TPDU_PAYLOAD)
  }

  /** Exactly when a continuation is taken by a receiver that holds something: it comes a
      multiple of 64 TPDUs after the one that was expected. */
  lemma TakenIffWrapped(r: Receiver, t: Tpdu, m: Mark)
    requires Marks(m, r, t.seqNo) && m.Part? && Regular(t) && !t.fir
    ensures Validate(r, t).1 <==> m.missed % 64 == 0
  {
    assert t.seqNo == (r.expected + m.missed) % 64;
    SameModulo(r.expected, m.missed);
  }

  lemma SameModulo(a: nat, n: nat)
    requires a < 64
    ensures (a + n) % 64 == a <==> n % 64 == 0
  {
  }

  lemma AdvanceMore(s: nat, e: nat, n: nat)
    requires s == Advance(e, n)
    ensures Next(s) == Advance(e, n + 1)
  {
  }

  /** One TPDU on the channel: the mark follows the receiver, and says what it delivers. */
  lemma NoteFollows(size: nat, r: Receiver, t: Tpdu, kept: bool, m: Mark)
    requires Marks(m, r, t.seqNo) && Regular(t)
    ensures var (r', d) := Arrive(size, r, t, kept);
            && Marks(Note(size, t, kept, m), r', Next(t.seqNo))
            && (d.Some? <==> kept && Takes(t, m) && t.fin && Grown(t, m) <= size)
            && (kept && Takes(t, m) && Grown(t, m) <= size ==>
                  var all := (if t.fir then [] else r.held) + t.payload;
                  if t.fin then d == Some(all) else r'.held == all)
            && (!kept || !Takes(t, m) ==> r'.held == r.held)
  {
    if m.Part? {
      if !t.fir { TakenIffWrapped(r, t, m); }
      AdvanceMore(t.seqNo, r.expected, m.missed);
    }
  }

  lemma PatternStep(size: nat, t: Tpdu, rest: seq<Tpdu>, kept: seq<bool>, m: Mark)
    requires |kept| == |rest| + 1
    ensures var n := Note(size, t, kept[0], m);
            && Splices(size, [t] + rest, kept, m)
               == (if Splice(size, t, kept[0], m) then 1 else 0) + Splices(size, rest, kept[1..], n)
            && MarkAfter(size, [t] + rest, kept, m) == MarkAfter(size, rest, kept[1..], n)
            && (rest == [] ==> Splices(size, rest, kept[1..], n) == 0)
  {
    assert ([t] + rest)[1..] == rest;
  }

  lemma FirstSegment(data: Bytes, sent: nat, s: nat)
    requires sent < |data| && s < 64
    ensures var t, sent' := Segment(data, sent, s), sent + Chunk(data, sent);
            var rest := Segments(data, sent', Next(s));
            && Segments(data, sent, s) == [t] + rest && |Segments(data, sent, s)| == |rest| + 1
            && (sent' == |data| <==> rest == []) && sent < sent' <= |data|
            && Regular(t) && t.seqNo == s && (t.fir <==> sent == 0) && (t.fin <==> sent' == |data|)
            && data[..sent] + t.payload == data[..sent'] && |t.payload| == sent' - sent && data[..|data|] == data
            && Advance(Next(s), |rest|) == Advance(s, |Segments(data, sent, s)|) && Next(s) < 64
  {
    AdvanceNext(s, |Segments(data, sent + Chunk(data, sent), Next(s))|);
  }

  /** The rest of a fragment, once its first segment is past. The receiver that has all of it
      so far delivers it whole if nothing more is lost and it fits; otherwise, and whatever
      else a receiver holds, just what is spliced comes out, and of this fragment too little. */
  lemma {:induction false} SegmentsFate(size: nat, r: Receiver, data: Bytes, sent: nat, s: nat,
      kept: seq<bool>, m: Mark)
    requires 0 < sent <= |data| && s < 64 && Marks(m, r, s)
    requires m.Part? && m.whole ==> sent < |data| && r.held == data[..sent]
    requires |kept| == |Segments(data, sent, s)|
    ensures var ts := Segments(data, sent, s);
            var (r', ds) := Run(size, r, ts, kept);
            var m' := MarkAfter(size, ts, kept, m);
            && Marks(m', r', Advance(s, |ts|)) && !(m'.Part? && m'.whole)
            && if m.Part? && m.whole && AllKept(kept) && |data| <= size
               then ds == [data] && Splices(size, ts, kept, m) == 0
               else && |ds| == Splices(size, ts, kept, m)
                    && (Short(m, sent) ==> forall i :: 0 <= i < |ds| ==> |ds[i]| < |data|)
    decreases |data| - sent
  {
    if sent == |data| {
      AdvanceNext(s, 0);
    } else {
      var t, sent' := Segment(data, sent, s), sent + Chunk(data, sent);
      hide Run, Receive, Segment, Segments, Splices, MarkAfter, Next, Advance;
      var rest := Segments(data, sent', Next(s));
      FirstSegment(data, sent, s);
      RunStep(size, r, t, rest, kept);
      PatternStep(size, t, rest, kept, m);
      NoteFollows(size, r, t, kept[0], m);
      var (r1, d) := Arrive(size, r, t, kept[0]);
      SegmentsFate(size, r1, data, sent', Next(s), kept[1..], Note(size, t, kept[0], m));
    }
  }

  /** What is held of a fragment with a gap is less than what was sent of it. */
  predicate Short(m: Mark, sent: nat) {
    m.Part? && !m.whole ==> m.length < sent
  }

  /** One fragment, whatever the receiver holds of earlier ones and whatever subset of its
      segments arrives: delivered whole if all of them do and it fits, else only splices. A
      receiver that held nothing delivers it whole or not at all if and only if the pattern
      splices nothing. */
  lemma FragmentAllOrNothing(size: nat, r: Receiver, data: Bytes, s: nat, kept: seq<bool>, m: Mark)
    requires data != [] && s < 64 && Marks(m, r, s) && !(m.Part? && m.whole)
    requires |kept| == |Segments(data, 0, s)|
    ensures var ts := Segments(data, 0, s);
            var (r', ds) := Run(size, r, ts, kept);
            var m' := MarkAfter(size, ts, kept, m);
            && Marks(m', r', Advance(s, |ts|)) && !(m'.Part? && m'.whole)
            && (if AllKept(kept) && |data| <= size then ds == [data] && Splices(size, ts, kept, m) == 0
                else |ds| == Splices(size, ts, kept, m))
            && (m.Nothing? ==> ((ds == [] || ds == [data]) <==> Splices(size, ts, kept, m) == 0))
  {
    hide Run, Receive, Segment, Segments, Splices, MarkAfter, Next, Advance;
    var t, sent := Segment(data, 0, s), Chunk(data, 0);
    var rest := Segments(data, sent, Next(s));
    FirstSegment(data, 0, s);
    RunStep(size, r, t, rest, kept);
    PatternStep(size, t, rest, kept, m);
    NoteFollows(size, r, t, kept[0], m);
    assert data[..0] == [];
    var (r1, d) := Arrive(size, r, t, kept[0]);
    SegmentsFate(size, r1, data, sent, Next(s), kept[1..], Note(size, t, kept[0], m));
    var ds := Run(size, r1, rest, kept[1..]).1;
    assert Listed(None) + ds == ds;
    if m.Nothing? && !(AllKept(kept) && |data| <= size) && ds != [] { assert |ds[0]| < |data|; }
  }

  /** Over a channel that loses any TPDUs, the fragments that arrived whole and fit are
      delivered, and each splice adds one more: exactly those fragments come out, in order,
      once, unchanged, if and only if the loss pattern splices nothing. */
  lemma {:induction false} LossySafety(size: nat, r: Receiver, apdus: seq<Bytes>, s: nat, kept: seq<bool>, m: Mark)
    requires forall i :: 0 <= i < |apdus| ==> apdus[i] != []
    requires s < 64 && Marks(m, r, s) && !(m.Part? && m.whole) && |kept| == |Stream(apdus, s)|
    ensures var ts := Stream(apdus, s);
            var out := Run(size, r, ts, kept).1;
            && |out| == |Survivors(size, apdus, s, kept)| + Splices(size, ts, kept, m)
            && (out == Survivors(size, apdus, s, kept) <==> Splices(size, ts, kept, m) == 0)
    decreases |apdus|
  {
    if apdus != [] {
      var ts := Segments(apdus[0], 0, s);
      var n, s' := |ts|, Advance(s, |ts|);
      var rest := Stream(apdus[1..], s');
      assert kept == kept[..n] + kept[n..];
      SplicesAppend(size, ts, rest, kept[..n], kept[n..], m);
      RunAppend(size, r, ts, rest, kept[..n], kept[n..]);
      FragmentAllOrNothing(size, r, apdus[0], s, kept[..n], m);
      var (r', ds) := Run(size, r, ts, kept[..n]);
      LossySafety(size, r', apdus[1..], s', kept[n..], MarkAfter(size, ts, kept[..n], m));
    }
  }

  /** What the channel has done to the fragment the receiver may be holding part of:
      Idle, it holds none; Whole, nothing of it was lost yet; Broken(n), its first lost
      segment was sent n TPDUs ago. */
  datatype Gap = Idle | Whole | Broken(n: nat)

  function Bump(t: Tpdu, kept: bool, gap: Gap): Gap {
    if kept && t.fir then (if t.fin then Idle else Whole)
    else match gap
      case Idle => Idle
      case Whole => if !kept then Broken(1) else if t.fin then Idle else Whole
      case Broken(n) => Broken(n + 1)
  }

  /** The six-bit numbering never wraps onto a gap: no continuation segment arrives a
      multiple of 64 TPDUs after the first loss in a fragment that was begun. */
  predicate NoWrap(ts: seq<Tpdu>, kept: seq<bool>, gap: Gap)
    requires |ts| == |kept|
    decreases |ts|
  {
    ts == [] ||
    (&& (kept[0] && !ts[0].fir && gap.Broken? ==> gap.n % 64 != 0)
     && NoWrap(ts[1..], kept[1..], Bump(ts[0], kept[0], gap)))
  }

  /** Where the numbering never wraps onto a gap nothing is spliced, at any buffer size. */
  lemma {:induction false} NoWrapNoSplices(size: nat, ts: seq<Tpdu>, kept: seq<bool>, gap: Gap, m: Mark)
    requires |ts| == |kept| && NoWrap(ts, kept, gap)
    requires m.Part? ==> if m.whole then gap.Whole? && m.missed == 0 else gap == Broken(m.missed)
    ensures Splices(size, ts, kept, m) == 0
    decreases |ts|
  {
    if ts != [] {
      NoWrapNoSplices(size, ts[1..], kept[1..], Bump(ts[0], kept[0], gap), Note(size, ts[0], kept[0], m));
    }
  }

  /** A FIR segment makes the receiver forget whatever it held. */
  lemma FirResynchronizes(size: nat, r: Receiver, t: Tpdu)
    requires t.fir
    ensures Receive(size, r, t) == Receive(size, Receiver([], 0), t)
  {}

  lemma {:induction false} NoLossNoWrap(ts: seq<Tpdu>, kept: seq<bool>, gap: Gap)
    requires |ts| == |kept| && AllKept(kept) && !gap.Broken?
    ensures NoWrap(ts, kept, gap)
    decreases |ts|
  {
    if ts != [] { NoLossNoWrap(ts[1..], kept[1..], Bump(ts[0], true, gap)); }
  }

  lemma {:induction false} AllSurvive(size: nat, apdus: seq<Bytes>, s: nat, kept: seq<bool>)
    requires |kept| == |Stream(apdus, s)| && AllKept(kept)
    requires forall a <- apdus :: |a| <= size
    ensures Survivors(size, apdus, s, kept) == apdus
    decreases |apdus|
  {
    if apdus != [] {
      hide Segments, Advance;
      var n := |Segments(apdus[0], 0, s)|;
      assert apdus[0] in apdus && forall a <- apdus[1..] :: a in apdus;
      AllSurvive(size, apdus[1..], Advance(s, n), kept[n..]);
      assert AllKept(kept[..n]);
      assert [apdus[0]] + apdus[1..] == apdus;
    }
  }

  /** Without losses every list of fragments is reassembled, from any receiver state and
      any starting number, at any length the receiver's buffer holds. */
  lemma LosslessDelivery(size: nat, r: Receiver, apdus: seq<Bytes>, s: nat, kept: seq<bool>)
    requires s < 64 && forall a <- apdus :: 0 < |a| <= size
    requires |kept| == |Stream(apdus, s)| && AllKept(kept)
    ensures Run(size, r, Stream(apdus, s), kept).1 == apdus
  {
    var ts := Stream(apdus, s);
    NoLossNoWrap(ts, kept, Idle);
    NoWrapNoSplices(size, ts, kept, Idle, Nothing);
    LossySafety(size, Receiver([], 0), apdus, s, kept, Nothing);
    AllSurvive(size, apdus, s, kept);
    if apdus != [] {
      assert apdus[0] in apdus;
      assert ts[0] == Segment(apdus[0], 0, s);
      FirResynchronizes(size, r, ts[0]);
    }
  }

  /** Losing n full segments leaves the receiver as it was. */
  lemma {:induction false} LoseSegments(size: nat, r: Receiver, data: Bytes, sent: nat, s: nat, n: nat, kept: seq<bool>)
    requires s < 64 && sent + MAX_TPDU_PAYLOAD * n <= |data|
    requires |kept| == |Segments(data, sent, s)| && n <= |kept| && forall i :: 0 <= i < n ==> !kept[i]
    ensures |Segments(data, sent + MAX_TPDU_PAYLOAD * n, Advance(s, n))| == |kept| - n
    ensures Run(size, r, Segments(data, sent, s), kept) ==
            Run(size, r, Segments(data, sent + MAX_TPDU_PAYLOAD * n, Advance(s, n)), kept[n..])
    decreases n
  {
    if n == 0 {
      AdvanceNext(s, 0);
      assert kept[0..] == kept;
    } else {
      hide Run, Receive, Segment, Segments, Next, Advance;
      var rest := Segments(data, sent + MAX_TPDU_PAYLOAD, Next(s));
      FirstSegment(data, sent, s);
      RunStep(size, r, Segment(data, sent, s), rest, kept);
      assert Listed(None) + Run(size, r, rest, kept[1..]).1 == Run(size, r, rest, kept[1..]).1;
      assert sent + MAX_TPDU_PAYLOAD * n == sent + MAX_TPDU_PAYLOAD + MAX_TPDU_PAYLOAD * (n - 1);
      LoseSegments(size, r, data, sent + MAX_TPDU_PAYLOAD, Next(s), n - 1, kept[1..]);
      AdvanceNext(s, n - 1);
      assert kept[1..][n - 1..] == kept[n..];
    }
  }

  /** The limit is real: when exactly 64 segments in a row are lost from one fragment, the
      numbering wraps and the receiver delivers a fragment with a hole in it. */
  lemma WrapCorrupts(size: nat, data: Bytes, s: nat, kept: seq<bool>)
    requires s < 64 && 65 * MAX_TPDU_PAYLOAD < |data| <= 66 * MAX_TPDU_PAYLOAD && size >= |data|
    requires |kept| == |Segments(data, 0, s)| == 66
    requires kept[0] && kept[65] && forall i :: 1 <= i < 65 ==> !kept[i]
    ensures Run(size, Receiver([], 0), Segments(data, 0, s), kept).1 ==
            [data[..MAX_TPDU_PAYLOAD] + data[65 * MAX_TPDU_PAYLOAD..]]
  {
    var first := Segment(data, 0, s);
    var rest := Segments(data, MAX_TPDU_PAYLOAD, Next(s));
    var r := Receiver(data[..MAX_TPDU_PAYLOAD], Next(s));
    assert Segments(data, 0, s) == [first] + rest;
    RunStep(size, Receiver([], 0), first, rest, kept);
    assert [] + first.payload == data[..MAX_TPDU_PAYLOAD];
    LoseSegments(size, r, data, MAX_TPDU_PAYLOAD, Next(s), 64, kept[1..]);
    var last := Segment(data, 65 * MAX_TPDU_PAYLOAD, Advance(Next(s), 64));
    assert Advance(Next(s), 64) == Next(s);
    assert kept[1..][64..] == [true];
    assert Segments(data, 65 * MAX_TPDU_PAYLOAD, Next(s)) == [last] + [];
    RunStep(size, r, last, [], [true]);
    assert last.payload == data[65 * MAX_TPDU_PAYLOAD..];
    var hole := data[..MAX_TPDU_PAYLOAD] + last.payload;
    assert Receive(size, r, last) == (Receiver([], Next(Next(s))), Some(hole));
    assert Listed(Some(hole)) + [] == [hole] && Listed(None) + [hole] == [hole];
  }

  /** In that run one fragment is spliced. */
  lemma WrapSplices(size: nat, data: Bytes, s: nat, kept: seq<bool>)
    requires s < 64 && 65 * MAX_TPDU_PAYLOAD < |data| <= 66 * MAX_TPDU_PAYLOAD && size >= |data|
    requires |kept| == |Segments(data, 0, s)| == 66
    requires kept[0] && kept[65] && forall i :: 1 <= i < 65 ==> !kept[i]
    ensures Splices(size, Segments(data, 0, s), kept, Nothing) == 1
  {
    WrapCorrupts(size, data, s, kept);
    assert !AllKept(kept) by { assert !kept[1]; }
    FragmentAllOrNothing(size, Receiver([], 0), data, s, kept, Nothing);
  }

  // ---- End to end ----

  lemma {:induction false} SegmentsFit(data: Bytes, sent: nat, s: nat)
    requires sent <= |data| && s < 64
    ensures forall t <- Segments(data, sent, s) :: t.seqNo < 64 && 1 <= |t.payload| <= MAX_TPDU_PAYLOAD
    decreases |data| - sent
  {
    if sent < |data| { SegmentsFit(data, sent + Chunk(data, sent), Next(s)); }
  }

  lemma {:induction false} EncodeAllAt(ts: seq<Tpdu>)
    ensures |EncodeAll(ts)| == |ts| && forall i :: 0 <= i < |ts| ==> EncodeAll(ts)[i] == Encode(ts[i])
    decreases |ts|
  {
    if ts != [] { EncodeAllAt(ts[1..]); }
  }

  /** One TPDU on the channel: lost, or received as octets. */
  method Arrival(rx: TransportRx, raw: Bytes, kept: bool, ghost t: Tpdu)
    requires rx.Valid() && raw == Encode(t) && t.seqNo < 64 && 1 <= |t.payload| <= MAX_TPDU_PAYLOAD
    modifies rx, rx.buffer
    ensures rx.Valid()
    ensures var (r, d) := Arrive(rx.buffer.Length, old(rx.State()), t, kept);
            rx.State() == r && rx.delivered == old(rx.delivered) + Listed(d)
  {
    if kept {
      DecodeEncode(t);
      var o := rx.HandleReceive(raw);
    }
  }

  /** The lossy channel between the two: the kept octet strings arrive in order. */
  method Arrivals(rx: TransportRx, raws: seq<Bytes>, kept: seq<bool>, ghost ts: seq<Tpdu>)
    requires rx.Valid() && |kept| == |ts| && raws == EncodeAll(ts)
    requires |raws| == |ts|
    requires forall t <- ts :: t.seqNo < 64 && 1 <= |t.payload| <= MAX_TPDU_PAYLOAD
    modifies rx, rx.buffer
    ensures rx.Valid()
    ensures rx.delivered == old(rx.delivered) + Run(rx.buffer.Length, old(rx.State()), ts, kept).1
  {
    ghost var size := rx.buffer.Length;
    ghost var goal := rx.delivered + Run(size, rx.State(), ts, kept).1;
    EncodeAllAt(ts);
    assert ts[0..] == ts && kept[0..] == kept;
    for i := 0 to |raws|
      invariant rx.Valid()
      invariant rx.delivered + Run(size, rx.State(), ts[i..], kept[i..]).1 == goal
    {
      RunAt(size, rx.State(), ts, kept, i, rx.delivered);
      Arrival(rx, raws[i], kept[i], ts[i]);
    }
  }

  lemma RunAt(size: nat, r: Receiver, ts: seq<Tpdu>, kept: seq<bool>, i: nat, out: seq<Bytes>)
    requires i < |ts| == |kept|
    ensures var (r1, d) := Arrive(size, r, ts[i], kept[i]);
            out + Run(size, r, ts[i..], kept[i..]).1 == out + Listed(d) + Run(size, r1, ts[i + 1..], kept[i + 1..]).1
  {
    assert ts[i..] == [ts[i]] + ts[i + 1..] && kept[i..][1..] == kept[i + 1..];
    RunStep(size, r, ts[i], ts[i + 1..], kept[i..]);
  }

  lemma {:induction false} EncodeAllAppend(a: seq<Tpdu>, b: seq<Tpdu>)
    ensures EncodeAll(a + b) == EncodeAll(a) + EncodeAll(b)
    decreases |a|
  {
    if a == [] {
      assert a + b == b;
    } else {
      assert (a + b)[1..] == a[1..] + b;
      EncodeAllAppend(a[1..], b);
    }
  }

  lemma {:induction false} StreamFits(apdus: seq<Bytes>, s: nat)
    requires s < 64
    ensures forall t <- Stream(apdus, s) :: t.seqNo < 64 && 1 <= |t.payload| <= MAX_TPDU_PAYLOAD
    decreases |apdus|
  {
    if apdus != [] {
      SegmentsFit(apdus[0], 0, s);
      StreamFits(apdus[1..], Advance(s, |Segments(apdus[0], 0, s)|));
    }
  }

  lemma StreamAt(apdus: seq<Bytes>, i: nat, s: nat, out: seq<Bytes>)
    requires i < |apdus|
    ensures var ts := Segments(apdus[i], 0, s);
            out + EncodeAll(Stream(apdus[i..], s))
            == out + EncodeAll(ts) + EncodeAll(Stream(apdus[i + 1..], Advance(s, |ts|)))
  {
    var ts := Segments(apdus[i], 0, s);
    assert apdus[i..][1..] == apdus[i + 1..];
    EncodeAllAppend(ts, Stream(apdus[i + 1..], Advance(s, |ts|)));
  }

  /** The sender's buffers over a list of fragments. */
  method TransmitAll(tx: TransportTx, apdus: seq<Bytes>)
    requires tx.Valid() && forall a <- apdus :: 0 < |a| <= tx.apdu.Length
    modifies tx, tx.apdu
    ensures tx.Valid() && tx.transmitted == old(tx.transmitted) + EncodeAll(Stream(apdus, old(tx.seqNo)))
  {
    ghost var goal := tx.transmitted + EncodeAll(Stream(apdus, tx.seqNo));
    assert apdus[0..] == apdus;
    for i := 0 to |apdus|
      invariant tx.Valid() && tx.transmitted + EncodeAll(Stream(apdus[i..], tx.seqNo)) == goal
    {
      StreamAt(apdus, i, tx.seqNo, tx.transmitted);
      TransmitFragment(tx, apdus[i]);
    }
    assert apdus[|apdus|..] == [];
    assert tx.transmitted + [] == tx.transmitted;
  }

  /** Sender, lossy channel and receiver together, on octets. */
  method EndToEnd(apdus: seq<Bytes>, kept: seq<bool>, txSize: nat, rxSize: nat) returns (delivered: seq<Bytes>)
    requires forall a <- apdus :: 0 < |a| <= txSize
    requires |kept| == |Stream(apdus, 0)|
    ensures delivered == Survivors(rxSize, apdus, 0, kept) <==> Splices(rxSize, Stream(apdus, 0), kept, Nothing) == 0
    ensures |delivered| == |Survivors(rxSize, apdus, 0, kept)| + Splices(rxSize, Stream(apdus, 0), kept, Nothing)
  {
    var tx := new TransportTx(txSize);
    var rx := new TransportRx(rxSize);
    ghost var ts := Stream(apdus, 0);
    TransmitAll(tx, apdus);
    assert tx.transmitted == EncodeAll(ts);
    EncodeAllAt(ts);
    StreamFits(apdus, 0);
    Arrivals(rx, tx.transmitted, kept, ts);
    LossySafety(rxSize, Receiver([], 0), apdus, 0, kept, Nothing);
    delivered := rx.delivered;
  }
}
