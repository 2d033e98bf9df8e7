/** The fast JTAG UART driver: write and read calls with the interrupt routine running between any two
    of their accesses.

    `Interrupts` stands for whatever the interrupt routine and the timeout alarm do in the time
    between two accesses: any number of invocations, each seeing arbitrary device registers.  A spin
    loop that is still going when the observed run ends is reported as Waiting or Spinning. */
module JtagUart {
  import opened Basics
  import opened Ring

  /** The control register as the interrupt routine reads it. */
  datatype Control = Control(ri: bool, wi: bool, wspace: nat)

  /** The data register: a byte, whether it is valid, and how many more are available. */
  datatype Data = Data(byte: Octet, rvalid: bool, ravail: nat)

  /** One call of the timeout routine: whether the host had been active, and the count it left. */
  datatype Count = Count(active: bool, value: nat)

  datatype WriteResult =
    | Accepted(n: nat)      // number of bytes taken
    | WouldBlock(n: nat)    // -EWOULDBLOCK
    | HostGone(n: nat)      // -EIO
    | Waiting(n: nat)       // still in the loop

  datatype ReadResult = Got | NoData | NoHost | Spinning

  const INT_MAX := 0x7FFF_FFFF

  /** One of the counts from number `from` on was at least `k`. */
  ghost predicate Reached(counts: seq<Count>, from: int, k: nat) {
    exists i :: from <= i < |counts| && 0 <= i && counts[i].value >= k
  }

  lemma ReachedNow(counts: seq<Count>, from: int, k: nat)
    requires counts != [] && from < |counts| && counts[|counts| - 1].value >= k
    ensures Reached(counts, from, k)
  {
    assert counts[|counts| - 1].value >= k;
  }

  lemma StillReached(counts: seq<Count>, from: int, more: seq<Count>, start: int, k: nat)
    requires Reached(counts, from, k) && counts <= more && start <= from
    ensures Reached(more, start, k)
  {
    var i :| from <= i < |counts| && 0 <= i && counts[i].value >= k;
    assert more[i] == counts[i];
  }

  function Least(a: nat, b: nat): nat { if a < b then a else b }

  /** One control word read by the interrupt routine: how many bytes were waiting to be sent and how many were,
      whether the receive ring was full afterwards, and the last data read if any. */
  datatype Service = Service(control: Control, held: nat, sent: nat, full: bool, last: Option<Data>)
  {
    predicate Idle() { !control.ri && !control.wi }

    /** What the word asked for was done: with WI as many bytes were sent as there were and as fit, with RI
        bytes were taken until the ring was full or the device had no more. */
    predicate Honoured() {
      && sent == (if control.wi then Least(control.wspace, held) else 0)
      && (control.ri ==> full || (last.Some? && !last.value.rvalid))
    }
  }

  ghost predicate AllHonoured(s: seq<Service>) { forall i :: 0 <= i < |s| ==> s[i].Honoured() }

  function Carried(s: seq<Service>): nat {
    if s == [] then 0 else Carried(s[..|s| - 1]) + s[|s| - 1].sent
  }

  lemma CarriedSnoc(s: seq<Service>, x: Service)
    ensures Carried(s + [x]) == Carried(s) + x.sent
    ensures AllHonoured(s) && x.Honoured() ==> AllHonoured(s + [x])
  {
    assert (s + [x])[..|s|] == s;
  }

  /** One turn of a spin loop: whether the ring was found as it had been, and the inactivity count found. */
  datatype Wait = Wait(same: bool, inactive: nat)

  /** The program goes on waiting only while the ring stays as it was and the host is not timed out, or if it
      finds the host active. */
  ghost predicate Justified(waits: seq<Wait>, timeout: nat) {
    forall i :: 0 <= i < |waits| ==> (waits[i].same && waits[i].inactive < timeout) || waits[i].inactive == 0
  }

  lemma JustifiedAppend(a: seq<Wait>, b: seq<Wait>, timeout: nat)
    requires Justified(a, timeout) && Justified(b, timeout)
    ensures Justified(a + b, timeout)
  {
  }

  lemma Cancel(a: seq<Octet>, s: seq<Octet>, t: seq<Octet>)
    requires a + s <= a + t
    ensures s <= t
  {
    assert s == (a + s)[|a|..] && t == (a + t)[|a|..];
  }

  class Uart {
    const rxBuf: array<Octet>
    const txBuf: array<Octet>
    var rxIn: Index
    var rxOut: Index
    var txIn: Index
    var txOut: Index
    var re: bool            // RE and WE of irq_enable
    var we: bool
    var hostInactive: nat
    const timeout: nat
    const truthful: bool    // the device never reports bytes available with RVALID clear

    ghost var sent: seq<Octet>      // written to the data register
    ghost var accepted: seq<Octet>  // taken from callers of write
    ghost var received: seq<Octet>  // valid bytes read from the data register
    ghost var returned: seq<Octet>  // handed to callers of read
    ghost var lastIn: nat           // how many bytes had been sent when bytes were last accepted
    ghost var log: seq<Data>        // everything read from the data register
    ghost var counts: seq<Count>    // the timeout routine's calls
    ghost var services: seq<Service>   // the control words the interrupt routine has read
    ghost var ledger: seq<Made>     // the calls of write and read

    ghost predicate Arrays() { rxBuf.Length == BUF_LEN && txBuf.Length == BUF_LEN && rxBuf != txBuf }

    ghost predicate TxOk() reads `sent, `accepted, `lastIn, `txIn, `txOut, txBuf {
      Arrays() && sent + Live(txBuf[..], txOut, txIn) == accepted && lastIn <= |sent|
    }

    ghost predicate RxOk() reads `received, `returned, `rxIn, `rxOut, rxBuf {
      Arrays() && returned + Live(rxBuf[..], rxOut, rxIn) == received
    }

    /** The inactivity count is what the timeout routine left last. */
    ghost predicate HostOk() reads `hostInactive, `counts {
      counts != [] && hostInactive == counts[|counts| - 1].value
    }

    /** Every control word read has been honoured. */
    ghost predicate ServedOk() reads `services { AllHonoured(services) }

    ghost predicate Valid()
      reads `sent, `accepted, `lastIn, `txIn, `txOut, `received, `returned, `rxIn, `rxOut, `hostInactive, `counts,
            `services, rxBuf, txBuf
    {
      TxOk() && RxOk() && HostOk() && ServedOk()
    }

    /** Bytes waiting to be sent have the transmit interrupt enabled. */
    predicate TxAwake() reads `txIn, `txOut, `we { txIn != txOut ==> we }

    /** The receive interrupt is off only because there is no room.  This needs a device that counts
        available bytes truly; everything else holds of any device. */
    predicate RxAwake() reads `re, `rxIn, `rxOut { truthful && !re ==> Full(rxOut, rxIn) }

    constructor (timeout: nat, truthful: bool)
      ensures Valid() && TxAwake() && RxAwake() && this.timeout == timeout && this.truthful == truthful
      ensures sent == accepted == received == returned == [] && log == [] && hostInactive == 0
      ensures services == [] && ledger == [] && re && !we
      ensures fresh(rxBuf) && fresh(txBuf)
    {
      rxBuf := new Octet[BUF_LEN](_ => 0);
      txBuf := new Octet[BUF_LEN](_ => 0);
      rxIn, rxOut, txIn, txOut := 0, 0, 0, 0;
      re, we := true, false;
      hostInactive, this.timeout, this.truthful := 0, timeout, truthful;
      sent, accepted, received, returned, lastIn := [], [], [], [], 0;
      log, counts, services, ledger := [], [Count(true, 0)], [], [];
    }

    // ---------- the interrupt routine ----------

    /** Read the data register; a valid byte has left the device for good. */
    method ReadData() returns (d: Data)
      modifies `received, `log
      ensures log == old(log) + [d]
      ensures truthful && !d.rvalid ==> d.ravail == 0
      ensures received == old(received) + (if d.rvalid then [d.byte] else [])
    {
      d := *;
      if truthful && !d.rvalid { d := d.(ravail := 0); }
      log := log + [d];
      if d.rvalid { received := received + [d.byte]; }
    }

    /** Store a received byte. */
    method Store(x: Octet)
      requires Arrays() && !Full(rxOut, rxIn)
      requires returned + Live(rxBuf[..], rxOut, rxIn) + [x] == received
      modifies `rxIn, rxBuf
      ensures RxOk() && txBuf[..] == old(txBuf[..]) && rxIn == Next(old(rxIn))
    {
      hide Live, Full;
      Put(rxBuf[..], rxOut, rxIn, x);
      ghost var before := rxBuf[..];
      rxBuf[rxIn] := x;
      assert rxBuf[..] == before[rxIn := x];
      rxIn := Next(rxIn);
    }

    /** A read interrupt: bytes are taken until the ring is full or the device has no more.  `last` is the
        last data read, if the ring was not full to begin with. */
    method RxPass() returns (ghost last: Option<Data>)
      requires Valid()
      modifies `rxIn, `re, `received, `log, rxBuf
      ensures Valid() && txBuf[..] == old(txBuf[..])
      ensures old(received) <= received
      ensures old(RxAwake()) ==> RxAwake()
      ensures last.None? ==> old(Full(rxOut, rxIn)) && log == old(log) && received == old(received)
      ensures last.Some? ==> |log| > |old(log)| && last.value == log[|log| - 1]
      ensures last.None? || last.value.rvalid ==> Full(rxOut, rxIn)
      // switched off exactly if there is, or may be, more in the device
      ensures re == (old(re) && last.Some? && last.value.ravail == 0)
    {
      hide Live, TxOk, HostOk, ServedOk;
      var ravail := 1;
      last := None;
      while true
        invariant Valid() && txBuf[..] == old(txBuf[..]) && old(received) <= received
        invariant re == old(re) && (old(RxAwake()) ==> RxAwake())
        invariant last.None? ==> log == old(log) && received == old(received) && rxIn == old(rxIn) && ravail > 0
        invariant last.Some? ==> |log| > |old(log)| && last.value == log[|log| - 1]
        invariant last.Some? ==> last.value.rvalid && last.value.ravail == ravail
        decreases BUF_LEN + |returned| - |received|
      {
        LiveBound(rxBuf[..], rxOut, rxIn);
        if Next(rxIn) == rxOut { break; }
        var data := ReadData();
        ravail := data.ravail;
        last := Some(data);
        if !data.rvalid { break; }
        Store(data.byte);
      }
      if ravail > 0 {
        re := false;
      }
    }

    /** A write interrupt with room for `wspace` bytes in the device. */
    method TxPass(wspace: nat)
      requires Valid()
      modifies `txOut, `we, `sent
      ensures Valid()
      ensures old(sent) <= sent
      ensures old(TxAwake()) ==> TxAwake()
      ensures we != old(we) ==> !we && txIn == txOut
      // as many bytes as there are and as fit
      ensures |sent| == |old(sent)| + Least(wspace, |old(Live(txBuf[..], txOut, txIn))|)
      ensures we == (old(we) && wspace <= |old(Live(txBuf[..], txOut, txIn))|)
    {
      hide Live;
      var space := wspace;
      ghost var live := |Live(txBuf[..], txOut, txIn)|;
      LiveBound(txBuf[..], txOut, txIn);
      while space > 0 && txOut != txIn
        invariant Valid() && we == old(we) && old(sent) <= sent
        invariant |sent| == |old(sent)| + (wspace - space) && 0 <= space <= wspace
        invariant |Live(txBuf[..], txOut, txIn)| == live - (wspace - space)
        invariant old(TxAwake()) ==> TxAwake()
      {
        Take(txBuf[..], txOut, txIn);
        sent := sent + [txBuf[txOut]];
        txOut := Next(txOut);
        space := space - 1;
        LiveBound(txBuf[..], txOut, txIn);
      }
      LiveBound(txBuf[..], txOut, txIn);
      if space > 0 {
        we := false;
      }
    }

    /** Serve the control word just read. */
    method Respond(control: Control) returns (ghost last: Option<Data>)
      requires Valid()
      modifies `rxIn, `re, `received, `log, rxBuf, `txOut, `we, `sent
      ensures Valid() && txBuf[..] == old(txBuf[..])
      ensures old(received) <= received && old(sent) <= sent
      ensures (old(TxAwake()) ==> TxAwake()) && (old(RxAwake()) ==> RxAwake())
      ensures |sent| - |old(sent)| ==
                if control.wi then Least(control.wspace, |old(Live(txBuf[..], txOut, txIn))|) else 0
      ensures control.ri ==> Full(rxOut, rxIn) || (last.Some? && !last.value.rvalid)
      ensures last.Some? ==> log != [] && last.value == log[|log| - 1]
      ensures !control.ri ==> received == old(received) && log == old(log) && re == old(re)
      ensures !control.wi ==> we == old(we)
    {
      hide Live, Full, TxAwake, RxAwake;
      last := None;
      if control.ri { last := RxPass(); }
      if control.wi { TxPass(control.wspace); }
    }

    lemma Sizes()
      requires Valid()
      ensures Arrays()
    {
    }

    /** One turn of the interrupt routine: a control word is read and served. */
    method Pass() returns (idle: bool)
      requires Valid()
      modifies `rxIn, `re, `received, `log, `services, rxBuf, `txOut, `we, `sent
      ensures Valid() && Interrupted()
      ensures |services| == |old(services)| + 1
      ensures var s := services[|services| - 1];
              && idle == s.Idle() && s.Honoured()
              && s.held == |old(Live(txBuf[..], txOut, txIn))| && s.sent == |sent| - |old(sent)|
              && s.full == Full(rxOut, rxIn) && (s.last.Some? ==> log != [] && s.last.value == log[|log| - 1])
              && (!s.control.ri ==> received == old(received) && log == old(log) && re == old(re))
              && (!s.control.wi ==> we == old(we))
    {
      hide Live, Full, Carried, AllHonoured, TxOk, RxOk, HostOk, TxAwake, RxAwake;
      var control: Control := *;
      Sizes();
      ghost var held, before := |Live(txBuf[..], txOut, txIn)|, |sent|;
      idle := !control.ri && !control.wi;
      ghost var last := None;
      if !idle { last := Respond(control); }
      ghost var s := Service(control, held, |sent| - before, Full(rxOut, rxIn), last);
      CarriedSnoc(services, s);
      services := services + [s];
    }

    /** One invocation: passes until the control register shows nothing to do; `cut` if the observed run ends
        before that. */
    method Isr() returns (ghost cut: bool)
      requires Valid()
      modifies `rxIn, `re, `received, `log, `services, rxBuf, `txOut, `we, `sent
      ensures Valid() && Interrupted()
      ensures forall i :: |old(services)| <= i < |services| - 1 ==> !services[i].Idle()
      ensures cut <==> |services| == |old(services)| || !services[|services| - 1].Idle()
    {
      hide Valid, Live, Full, Carried, TxAwake, RxAwake;
      var passes: nat := *;
      cut := true;
      while passes > 0
        invariant Valid() && Interrupted() && cut
        invariant forall i :: |old(services)| <= i < |services| ==> !services[i].Idle()
      {
        var idle := Pass();
        if idle {
          cut := false;
          break;
        }
        passes := passes - 1;
      }
    }

    /** The timeout routine: activity of the host resets the count, and otherwise it goes up, to a limit. */
    method Timeout()
      modifies `hostInactive, `counts
      ensures |counts| == |old(counts)| + 1 && old(counts) <= counts
      ensures var c := counts[|counts| - 1];
              c.value == hostInactive == if c.active then 0
                                         else if old(hostInactive) < 0x7FFF_FFFD then old(hostInactive) + 1
                                         else old(hostInactive)
    {
      var active: bool := *;
      if active {
        hostInactive := 0;
      } else if hostInactive < INT_MAX - 2 {
        hostInactive := hostInactive + 1;
      }
      counts := counts + [Count(active, hostInactive)];
    }

    /** The histories only grow, and every byte sent was sent for a control word. */
    twostate predicate Later()
      reads `sent, `received, `counts, `services
    {
      && old(sent) <= sent && old(received) <= received && old(counts) <= counts && old(services) <= services
      && |sent| - |old(sent)| == Carried(services) - Carried(old(services))
    }

    /** The inactivity count was at least `k` at some moment: just before the call or during it. */
    twostate predicate HostIdle(k: nat)
      reads `counts
    {
      Reached(counts, |old(counts)| - 1, k)
    }

    /** Everything an interrupted caller can rely on: its own indices and bytes are left alone, the
        histories only grow, and no needed interrupt is switched off. */
    twostate predicate Interrupted()
      reads `sent, `received, `counts, `services, `re, `we, `rxIn, `rxOut, `txIn, `txOut, rxBuf, txBuf
    {
      && txBuf[..] == old(txBuf[..]) && Later()
      && (old(TxAwake()) ==> TxAwake()) && (old(RxAwake()) ==> RxAwake())
    }

    /** Whatever happens between two accesses of the interrupted code. */
    method Interrupts()
      requires Valid()
      modifies `rxIn, `re, `received, `log, `services, rxBuf, `txOut, `we, `sent, `hostInactive, `counts
      ensures Valid() && Interrupted()
    {
      hide Live, Full;
      var n: nat := *;
      while n > 0
        invariant Valid() && Interrupted()
      {
        var timer: bool := *;
        if timer { Timeout(); } else { var _ := Isr(); }
        n := n - 1;
      }
    }

    // ---------- write ----------

    /** memcpy(tx_buf + in, ptr, n), byte by byte, the interrupt routine running in between.  The `room`
        computed from a stale out pointer stays valid because the consumer only makes more of it. */
    method CopyIn(data: seq<Octet>, ptr: nat, n: nat)
      requires Valid() && ptr + n <= |data| && txIn + n <= BUF_LEN
      requires n <= BUF_LEN - 1 - |Live(txBuf[..], txOut, txIn)|
      modifies `rxIn, `re, `received, `log, `services, rxBuf, `txOut, `we, `sent, `hostInactive, `counts, txBuf
      ensures Valid() && Later() && (old(RxAwake()) ==> RxAwake())
      ensures txBuf[..][txIn..txIn + n] == data[ptr..ptr + n]
      ensures n <= BUF_LEN - 1 - |Live(txBuf[..], txOut, txIn)|
    {
      hide Live, Held, Full, RxOk, HostOk, ServedOk, Carried, RxAwake;
      var j := 0;
      while j < n
        invariant 0 <= j <= n && Valid() && Later() && (old(RxAwake()) ==> RxAwake())
        invariant txBuf[..][txIn..txIn + j] == data[ptr..ptr + j]
        invariant n <= BUF_LEN - 1 - |Live(txBuf[..], txOut, txIn)|
      {
        ghost var before := txBuf[..];
        CopyByte(txIn + j, data[ptr + j], j);
        Copied(before, txIn, data, ptr, j);
        Interrupts();
        assert |Live(txBuf[..], txOut, txIn)| == |accepted| - |sent|;
        j := j + 1;
      }
    }

    lemma Copied(before: seq<Octet>, at: nat, data: seq<Octet>, ptr: nat, j: nat)
      requires at + j < |before| && ptr + j < |data| && before[at..at + j] == data[ptr..ptr + j]
      ensures before[at + j := data[ptr + j]][at..at + j + 1] == data[ptr..ptr + j + 1]
    {
      var after := before[at + j := data[ptr + j]];
      assert after[at..at + j + 1] == before[at..at + j] + [data[ptr + j]];
      assert data[ptr..ptr + j + 1] == data[ptr..ptr + j] + [data[ptr + j]];
    }

    method CopyByte(i: Index, x: Octet, ghost j: nat)
      requires Valid() && i == txIn + j && j < BUF_LEN - 1 - |Live(txBuf[..], txOut, txIn)|
      modifies txBuf
      ensures Valid() && txBuf[..] == old(txBuf[..])[i := x] && rxBuf[..] == old(rxBuf[..])
      ensures Live(txBuf[..], txOut, txIn) == old(Live(txBuf[..], txOut, txIn))
    {
      hide Live, Held;
      FreeSlot(txBuf[..], txOut, txIn, j);
      Outside(txBuf[..], txOut, txIn, i, x);
      ghost var before := txBuf[..];
      txBuf[i] := x;
      assert txBuf[..] == before[i := x];
    }

    /** Publish `n` copied bytes. */
    method Publish(data: seq<Octet>, ptr: nat, n: nat)
      requires Valid() && ptr + n <= |data| && txIn + n <= BUF_LEN
      requires txBuf[..][txIn..txIn + n] == data[ptr..ptr + n]
      requires n <= BUF_LEN - 1 - |Live(txBuf[..], txOut, txIn)|
      modifies `txIn, `accepted, `lastIn
      ensures Valid() && accepted == old(accepted) + data[ptr..ptr + n] && lastIn == |sent|
    {
      hide Live;
      Extend(txBuf[..], txOut, txIn, n);
      txIn := Forward(txIn, n);
      accepted, lastIn := accepted + data[ptr..ptr + n], |sent|;
    }

    /** The ring was full when the bytes `seen` had been sent: nothing was accepted after that moment, and
        2047 of the bytes accepted by then were not among those sent. */
    ghost predicate FullAt(seen: seq<Octet>)
      reads `sent, `accepted, `lastIn
    {
      lastIn <= |seen| && seen <= sent && |accepted| - |seen| == 2047
    }

    /** One copy: `n` is zero only if the ring was full when its out pointer was read as `out`. */
    method FillOnce(data: seq<Octet>, ptr: nat) returns (n: nat, out: Index, ghost seen: seq<Octet>)
      requires Valid() && ptr < |data|
      modifies `rxIn, `re, `received, `log, `services, rxBuf, `txOut, `we, `sent, `hostInactive, `counts,
               txBuf, `txIn, `accepted, `lastIn
      ensures Valid() && Later() && (old(RxAwake()) ==> RxAwake())
      ensures ptr + n <= |data| && accepted == old(accepted) + data[ptr..ptr + n]
      ensures n == 0 ==> Full(out, txIn) && old(sent) <= seen && FullAt(seen)
    {
      hide Live, Held, Full, RxOk, HostOk, ServedOk, Carried, RxAwake, TxAwake;
      var inn := txIn;
      Interrupts();
      out := txOut;
      seen := sent;
      RoomIs(txBuf[..], out, inn);
      LiveBound(txBuf[..], out, inn);
      n := Room(out, inn);
      Interrupts();
      assert |Live(txBuf[..], txOut, txIn)| == |accepted| - |sent|;
      if n > |data| - ptr { n := |data| - ptr; }
      if n > 0 {
        CopyIn(data, ptr, n);
        Publish(data, ptr, n);
      }
    }

    /** Copy as much as fits; `full` is the out pointer seen when nothing more did. */
    method Fill(data: seq<Octet>, start: nat) returns (ptr: nat, full: Index, ghost seen: seq<Octet>)
      requires Valid() && start <= |data|
      modifies `rxIn, `re, `received, `log, `services, rxBuf, `txOut, `we, `sent, `hostInactive, `counts,
               txBuf, `txIn, `accepted, `lastIn
      ensures Valid() && Later() && (old(RxAwake()) ==> RxAwake())
      ensures start <= ptr <= |data| && accepted == old(accepted) + data[start..ptr]
      ensures ptr < |data| ==> Full(full, txIn) && old(sent) <= seen && FullAt(seen)
    {
      hide Valid, Full, FullAt, RxAwake;
      ptr, full, seen := start, 0, [];
      while ptr < |data|
        invariant Valid() && Later() && (old(RxAwake()) ==> RxAwake())
        invariant start <= ptr <= |data| && accepted == old(accepted) + data[start..ptr]
        decreases |data| - ptr
      {
        var n, out, s := FillOnce(data, ptr);
        full, seen := out, s;
        if n == 0 { break; }
        assert data[start..ptr] + data[ptr..ptr + n] == data[start..ptr + n];
        ptr := ptr + n;
        Interrupts();
      }
    }

    /** Wait until the consumer has moved on from `full` or the host is timed out, for at most `patience` turns;
        `gone` if the host has been counted inactive. */
    method AwaitRoom(full: Index, patience: nat) returns (left: nat, gone: bool, ghost waits: seq<Wait>)
      requires Valid() && TxAwake()
      modifies `rxIn, `re, `received, `log, `services, rxBuf, `txOut, `we, `sent, `hostInactive, `counts
      ensures Valid() && Interrupted() && left + |waits| == patience && Justified(waits, timeout)
      ensures gone ==> left > 0 && HostIdle(1)
      ensures left > 0 && !gone ==> left < patience
    {
      hide TxOk, RxOk, TxAwake, RxAwake, Reached, Carried, AllHonoured;
      left, gone, waits := patience, false, [];
      while left > 0
        invariant Valid() && Interrupted() && left + |waits| == patience && Justified(waits, timeout)
      {
        ghost var same := full == txOut;
        if full != txOut { break; }
        Interrupts();
        if hostInactive >= timeout { break; }
        waits := waits + [Wait(same, hostInactive)];
        Interrupts();
        left := left - 1;
      }
      if left > 0 {
        Interrupts();
        gone := hostInactive > 0;
        if gone {
          ReachedNow(counts, |old(counts)| - 1, 1);
        } else {
          waits := waits + [Wait(false, hostInactive)];
          left := left - 1;
        }
        ghost var seen := counts;
        Interrupts();
        if gone { StillReached(seen, |old(counts)| - 1, counts, |old(counts)| - 1, 1); }
      }
    }

    /** Copy as much as fits and kick the interrupt routine. */
    method Offer(data: seq<Octet>, start: nat) returns (ptr: nat, full: Index, ghost seen: seq<Octet>)
      requires Valid() && start <= |data|
      modifies `rxIn, `re, `received, `log, `services, rxBuf, `txOut, `we, `sent, `hostInactive, `counts,
               txBuf, `txIn, `accepted, `lastIn
      ensures Valid() && TxAwake() && Later() && (old(RxAwake()) ==> RxAwake())
      ensures start <= ptr <= |data| && accepted == old(accepted) + data[start..ptr]
      ensures ptr < |data| ==> old(sent) <= seen && FullAt(seen)
    {
      hide Valid, Full, RxAwake, TxAwake;
      ptr, full, seen := Fill(data, start);
      Interrupts();
      EnableTx();
      Interrupts();
    }

    /** The write call, watched for at most `patience` turns of its waiting loops. */
    method Write(data: seq<Octet>, nonblock: bool, patience: nat)
      returns (r: WriteResult, ghost seen: seq<Octet>, ghost waits: seq<Wait>)
      requires Valid()
      modifies this, rxBuf, txBuf
      ensures Valid() && r.n <= |data| && accepted == old(accepted) + data[..r.n]
      ensures Later() && returned == old(returned)
      ensures ledger == old(ledger) + [Made(WriteCall(data, nonblock, patience), r.Waiting?)]
      ensures old(RxAwake()) ==> RxAwake()
      // bytes are refused only when the ring was full, with `seen` sent
      ensures r.n < |data| ==> old(sent) <= seen && FullAt(seen)
      // no lost wake-up: bytes left in the ring have the transmit interrupt on
      ensures TxAwake()
      // a blocking call gives up only on a host that was counted inactive
      ensures r.Accepted? ==> r.n > 0 && (r.n < |data| ==> nonblock || HostIdle(1))
      ensures r.WouldBlock? ==> nonblock && r.n == 0
      ensures r.HostGone? ==> !nonblock && r.n == 0 && (data == [] || HostIdle(1))
      // and is still waiting only with bytes refused, as long as it was watched, and with reason
      ensures |waits| <= patience && Justified(waits, timeout)
      ensures r.Waiting? ==> !nonblock && r.n < |data| && |waits| == patience
    {
      hide Valid, Full, RxAwake, TxAwake, Reached, Carried, Justified, FullAt;
      var ptr, waiting;
      ptr, waiting, seen, waits := WriteLoop(data, nonblock, patience);
      if waiting {
        r := Waiting(ptr);
      } else {
        ghost var counted := counts;
        Pause(seen);
        if ptr < |data| && !nonblock { StillReached(counted, |old(counts)| - 1, counts, |old(counts)| - 1, 1); }
        r := if ptr > 0 then Accepted(ptr) else if nonblock then WouldBlock(0) else HostGone(0);
      }
      ledger := ledger + [Made(WriteCall(data, nonblock, patience), r.Waiting?)];
    }

    /** The loop of the write call. */
    method WriteLoop(data: seq<Octet>, nonblock: bool, patience: nat)
      returns (ptr: nat, waiting: bool, ghost seen: seq<Octet>, ghost waits: seq<Wait>)
      requires Valid()
      modifies `rxIn, `re, `received, `log, `services, rxBuf, `txOut, `we, `sent, `hostInactive, `counts,
               txBuf, `txIn, `accepted, `lastIn
      ensures Valid() && ptr <= |data| && accepted == old(accepted) + data[..ptr]
      ensures Later() && TxAwake() && (old(RxAwake()) ==> RxAwake())
      ensures ptr < |data| ==> old(sent) <= seen && FullAt(seen)
      ensures |waits| <= patience && Justified(waits, timeout)
      ensures if waiting then !nonblock && ptr < |data| && |waits| == patience
              else ptr == |data| || nonblock || HostIdle(1)
    {
      hide Valid, Full, RxAwake, TxAwake, Reached, Carried, Justified, FullAt;
      ptr, waiting, seen, waits := 0, false, [], [];
      var left: nat, stop := patience, false;
      NoWaits();
      while !stop
        invariant Valid() && 0 <= ptr <= |data| && accepted == old(accepted) + data[..ptr]
        invariant Later() && (old(RxAwake()) ==> RxAwake()) && (stop ==> TxAwake())
        invariant left + |waits| == patience && Justified(waits, timeout)
        invariant stop && ptr < |data| ==> old(sent) <= seen && FullAt(seen)
        invariant if waiting then stop && !nonblock && ptr < |data| && |waits| == patience
                  else stop ==> ptr == |data| || nonblock || HostIdle(1)
        decreases !stop, left
      {
        var gone;
        ghost var start, more, from := ptr, [], |counts| - 1;
        ptr, left, gone, seen, more := WriteTurn(data, ptr, nonblock, left);
        assert data[..start] + data[start..ptr] == data[..ptr];
        JustifiedAppend(waits, more, timeout);
        waits := waits + more;
        if gone { StillReached(counts, from, counts, |old(counts)| - 1, 1); }
        waiting := ptr < |data| && !nonblock && !gone && left == 0;
        stop := ptr == |data| || nonblock || gone || waiting;
      }
    }

    /** Interrupts at a moment when the ring was full when `seen` had been sent, or was not. */
    method Pause(ghost seen: seq<Octet>)
      requires Valid()
      modifies `rxIn, `re, `received, `log, `services, rxBuf, `txOut, `we, `sent, `hostInactive, `counts
      ensures Valid() && Interrupted() && (old(FullAt(seen)) ==> FullAt(seen))
    {
      hide Valid, Full, RxAwake, TxAwake, Carried;
      Interrupts();
    }

    /** One turn of the loop of the write call: copy, and if bytes are left wait for room. */
    method WriteTurn(data: seq<Octet>, start: nat, nonblock: bool, patience: nat)
      returns (ptr: nat, left: nat, gone: bool, ghost seen: seq<Octet>, ghost waits: seq<Wait>)
      requires Valid() && start <= |data|
      modifies `rxIn, `re, `received, `log, `services, rxBuf, `txOut, `we, `sent, `hostInactive, `counts,
               txBuf, `txIn, `accepted, `lastIn
      ensures Valid() && TxAwake() && Later() && (old(RxAwake()) ==> RxAwake())
      ensures start <= ptr <= |data| && accepted == old(accepted) + data[start..ptr]
      ensures ptr < |data| ==> old(sent) <= seen && FullAt(seen)
      ensures left + |waits| == patience && Justified(waits, timeout)
      ensures gone ==> HostIdle(1) && ptr < |data| && !nonblock
      ensures ptr < |data| && !nonblock && !gone ==> left == 0 || left < patience
      ensures ptr == |data| || nonblock ==> left == patience
    {
      hide Valid, Full, RxAwake, TxAwake, Reached, Carried, Justified;
      var full;
      ptr, full, seen := Offer(data, start);
      left, gone, waits := patience, false, [];
      NoWaits();
      if ptr < |data| && !nonblock {
        ghost var from := |counts| - 1;
        left, gone, waits := AwaitRoom(full, patience);
        if gone { StillReached(counts, from, counts, |old(counts)| - 1, 1); }
      }
    }

    lemma NoWaits()
      ensures Justified([], timeout)
    {
    }

    /** WE set between alt_irq_disable_all and alt_irq_enable_all. */
    method EnableTx()
      requires Valid()
      modifies `we
      ensures Valid() && TxAwake()
    {
      we := true;
    }

    // ---------- read ----------

    /** memcpy(ptr, rx_buf + out, n): live bytes stay where they are while the producer adds more. */
    method CopyOut(n: nat) returns (bytes: seq<Octet>)
      requires Valid() && rxOut + n <= BUF_LEN && n <= |Live(rxBuf[..], rxOut, rxIn)|
      modifies `rxIn, `re, `received, `log, `services, rxBuf, `txOut, `we, `sent, `hostInactive, `counts
      ensures Valid() && |bytes| == n && n <= |Live(rxBuf[..], rxOut, rxIn)|
      ensures bytes == Live(rxBuf[..], rxOut, rxIn)[..n]
      ensures Later() && (old(TxAwake()) ==> TxAwake()) && (old(RxAwake()) ==> RxAwake())
    {
      hide Live, Held, Full, TxOk, HostOk, ServedOk, Carried, RxAwake, TxAwake;
      bytes := [];
      ghost var live := Live(rxBuf[..], rxOut, rxIn);
      while |bytes| < n
        invariant Valid() && |bytes| <= n
        invariant live <= Live(rxBuf[..], rxOut, rxIn) && bytes == live[..|bytes|]
        invariant Later() && (old(TxAwake()) ==> TxAwake()) && (old(RxAwake()) ==> RxAwake())
        decreases n - |bytes|
      {
        Release(rxBuf[..], rxOut, rxIn, n);
        ghost var l := Live(rxBuf[..], rxOut, rxIn);
        assert l[..n][|bytes|] == rxBuf[rxOut + |bytes|] == live[|bytes|];
        bytes := bytes + [rxBuf[rxOut + |bytes|]];
        Interrupts();
        Cancel(returned, l, Live(rxBuf[..], rxOut, rxIn));
      }
    }

    /** One copy; `inn` is the in pointer it was measured by.  Nothing comes back only if the ring was empty. */
    method DrainOnce(space: nat) returns (bytes: seq<Octet>, inn: Index)
      requires Valid() && space > 0
      modifies `rxIn, `re, `received, `log, `services, rxBuf, `txOut, `we, `sent, `hostInactive, `counts,
               `rxOut, `returned
      ensures Valid() && |bytes| <= space && returned == old(returned) + bytes
      ensures Later() && (old(TxAwake()) ==> TxAwake())
      ensures bytes == [] ==> (old(RxAwake()) ==> RxAwake()) && inn == rxOut && old(received) == returned
    {
      hide Live, Held, Full, TxOk, HostOk, ServedOk, Carried, TxAwake;
      inn := rxIn;
      RunIs(rxBuf[..], rxOut, inn);
      var n := Run(rxOut, inn);
      ghost var l := Live(rxBuf[..], rxOut, rxIn);
      LiveBound(rxBuf[..], rxOut, rxIn);
      Interrupts();
      Cancel(returned, l, Live(rxBuf[..], rxOut, rxIn));
      if n > space { n := space; }
      bytes := [];
      if n > 0 {
        bytes := CopyOut(n);
        Release(rxBuf[..], rxOut, rxIn, n);
        rxOut := Forward(rxOut, n);
        returned := returned + bytes;
      }
    }

    /** Read as much as is there; `inn` is the in pointer seen when nothing more was. */
    method Drain(space: nat) returns (bytes: seq<Octet>, inn: Index)
      requires Valid() && space > 0
      modifies `rxIn, `re, `received, `log, `services, rxBuf, `txOut, `we, `sent, `hostInactive, `counts,
               `rxOut, `returned
      ensures Valid() && |bytes| <= space && returned == old(returned) + bytes
      ensures Later() && (old(TxAwake()) ==> TxAwake())
      ensures bytes == [] ==> (old(RxAwake()) ==> RxAwake()) && inn == rxOut
      ensures |bytes| < space ==> old(received) <= returned
    {
      hide Valid, Full, TxAwake, RxAwake;
      bytes := [];
      var left := space;
      while true
        invariant Valid() && left == space - |bytes| > 0 && returned == old(returned) + bytes
        invariant Later() && (old(TxAwake()) ==> TxAwake())
        invariant bytes == [] ==> (old(RxAwake()) ==> RxAwake())
        decreases left
      {
        var chunk, i := DrainOnce(left);
        inn := i;
        if chunk == [] { break; }
        bytes := bytes + chunk;
        left := left - |chunk|;
        Interrupts();
        if left == 0 { break; }
      }
    }

    /** Wait until the producer has moved on from `inn`, where the ring is empty, or the host is timed out, for at
        most `patience` turns; `gone` if there is still nothing. */
    method AwaitData(inn: Index, patience: nat) returns (left: nat, gone: bool, ghost waits: seq<Wait>)
      requires Valid() && inn == rxOut
      modifies `rxIn, `re, `received, `log, `services, rxBuf, `txOut, `we, `sent, `hostInactive, `counts
      ensures Valid() && Interrupted() && left + |waits| == patience && Justified(waits, timeout)
      ensures left > 0 && gone ==> HostIdle(timeout)
      ensures left > 0 && !gone ==> |returned| < |received|
    {
      hide TxOk, RxOk, Full, TxAwake, RxAwake, Reached, Carried, AllHonoured;
      left, gone, waits := patience, false, [];
      ghost var timedOut := false;
      while left > 0
        invariant Valid() && Interrupted() && left + |waits| == patience && Justified(waits, timeout) && !timedOut
      {
        InPointer();
        ghost var same := inn == rxIn;
        if inn != rxIn { break; }
        Interrupts();
        if hostInactive >= timeout {
          ReachedNow(counts, |old(counts)| - 1, timeout);
          timedOut := true;
          break;
        }
        waits := waits + [Wait(same, hostInactive)];
        Interrupts();
        left := left - 1;
      }
      if left > 0 {
        ghost var seen := counts;
        Interrupts();
        InPointer();
        gone := inn == rxIn;
        Interrupts();
        if timedOut { StillReached(seen, |old(counts)| - 1, counts, |old(counts)| - 1, timeout); }
      }
    }

    /** The in pointer is where the out pointer is exactly if everything received has been returned. */
    lemma InPointer()
      requires Valid()
      ensures rxIn == rxOut <==> |returned| == |received|
      ensures |returned| <= |received|
    {
      LiveBound(rxBuf[..], rxOut, rxIn);
    }

    /** The read call, watched for at most `patience` turns of its waiting loop; `bytes` is what has been put into
        the caller's buffer. */
    method Read(space: nat, nonblock: bool, patience: nat)
      returns (bytes: seq<Octet>, r: ReadResult, ghost waits: seq<Wait>)
      requires Valid()
      modifies this, rxBuf
      ensures Valid() && |bytes| <= space && returned == old(returned) + bytes
      ensures Later() && accepted == old(accepted)
      ensures ledger == old(ledger) + [Made(ReadCall(space, nonblock, patience), r.Spinning?)]
      ensures old(TxAwake()) ==> TxAwake()
      // no lost wake-up: the receive interrupt is off only if the ring is full
      ensures old(RxAwake()) ==> RxAwake()
      ensures r.Got? <==> bytes != []
      // a short read has handed over everything received before the call
      ensures |bytes| < space ==> old(received) <= returned
      ensures r.NoData? ==> nonblock
      // a blocking call gives up only when there was no space or the host was timed out
      ensures r.NoHost? ==> !nonblock && (space == 0 || HostIdle(timeout))
      // and is still waiting only as long as it was watched, and with reason
      ensures |waits| <= patience && Justified(waits, timeout)
      ensures r.Spinning? ==> !nonblock && space > 0 && |waits| == patience
    {
      hide Valid, Full, TxAwake, RxAwake, Reached, Carried, Justified;
      var waiting;
      bytes, waiting, waits := ReadLoop(space, nonblock, patience);
      if bytes != [] {
        Rearm();
        r := Got;
      } else {
        r := if waiting then Spinning else if nonblock then NoData else NoHost;
      }
      ledger := ledger + [Made(ReadCall(space, nonblock, patience), r.Spinning?)];
    }

    /** The loop of the read call. */
    method ReadLoop(space: nat, nonblock: bool, patience: nat)
      returns (bytes: seq<Octet>, waiting: bool, ghost waits: seq<Wait>)
      requires Valid()
      modifies `rxIn, `re, `received, `log, `services, rxBuf, `txOut, `we, `sent, `hostInactive, `counts,
               `rxOut, `returned
      ensures Valid() && |bytes| <= space && returned == old(returned) + bytes
      ensures Later() && (old(TxAwake()) ==> TxAwake()) && (bytes == [] && old(RxAwake()) ==> RxAwake())
      ensures |bytes| < space ==> old(received) <= returned
      ensures |waits| <= patience && Justified(waits, timeout)
      ensures if waiting then bytes == [] && !nonblock && space > 0 && |waits| == patience
              else bytes == [] ==> space == 0 || nonblock || HostIdle(timeout)
    {
      hide Valid, Full, TxAwake, RxAwake, Reached, Carried, Justified;
      bytes, waiting, waits := [], false, [];
      NoWaits();
      var stop := space == 0;
      while !stop
        invariant Valid() && |bytes| <= space && returned == old(returned) + bytes
        invariant Later() && (old(TxAwake()) ==> TxAwake()) && (bytes == [] && old(RxAwake()) ==> RxAwake())
        invariant |waits| <= patience && Justified(waits, timeout)
        invariant !stop ==> space > 0 && bytes == [] && (waits == [] || |returned| < |received|)
        invariant stop && |bytes| < space ==> old(received) <= returned
        invariant if waiting then stop && bytes == [] && !nonblock && space > 0 && |waits| == patience
                  else stop && bytes == [] ==> space == 0 || nonblock || HostIdle(timeout)
        decreases !stop, if |returned| < |received| then 0 else 1
      {
        var rest, gone;
        ghost var from, more := |counts| - 1, [];
        bytes, rest, gone, more := ReadTurn(space, nonblock, patience);
        waiting := bytes == [] && !nonblock && rest == 0;
        if bytes == [] && !nonblock {
          waits := more;
          if gone && !waiting { StillReached(counts, from, counts, |old(counts)| - 1, timeout); }
        }
        stop := bytes != [] || nonblock || gone || waiting;
      }
    }

    /** One turn of the loop of the read call: take what is there, and if that is nothing wait for data. */
    method ReadTurn(space: nat, nonblock: bool, patience: nat)
      returns (bytes: seq<Octet>, left: nat, gone: bool, ghost waits: seq<Wait>)
      requires Valid() && space > 0
      modifies `rxIn, `re, `received, `log, `services, rxBuf, `txOut, `we, `sent, `hostInactive, `counts,
               `rxOut, `returned
      ensures Valid() && |bytes| <= space && returned == old(returned) + bytes
      ensures Later() && (old(TxAwake()) ==> TxAwake()) && (bytes == [] && old(RxAwake()) ==> RxAwake())
      ensures |bytes| < space ==> old(received) <= returned
      ensures left + |waits| == patience && Justified(waits, timeout)
      ensures bytes != [] || nonblock ==> waits == [] && !gone
      ensures bytes == [] && !nonblock && left > 0 ==> if gone then HostIdle(timeout) else |returned| < |received|
    {
      hide Valid, Full, TxAwake, RxAwake, Reached, Carried, Justified;
      var inn;
      bytes, inn := Drain(space);
      left, gone, waits := patience, false, [];
      NoWaits();
      if bytes == [] && !nonblock {
        ghost var from := |counts| - 1;
        left, gone, waits := AwaitData(inn, patience);
        if gone && left > 0 { StillReached(counts, from, counts, |old(counts)| - 1, timeout); }
      }
    }

    /** There is space again: enable the receive interrupt. */
    method Rearm()
      requires Valid()
      modifies `rxIn, `re, `received, `log, `services, rxBuf, `txOut, `we, `sent, `hostInactive, `counts
      ensures Valid() && RxAwake() && Later() && (old(TxAwake()) ==> TxAwake())
    {
      hide Valid, Full, TxAwake, RxAwake, Carried;
      Interrupts();
      EnableRx();
      Interrupts();
    }

    /** RE set between alt_irq_disable_all and alt_irq_enable_all. */
    method EnableRx()
      requires Valid()
      modifies `re
      ensures Valid() && RxAwake()
    {
      re := true;
    }

    // ---------- whole sessions ----------

    lemma Prefixes()
      requires Valid()
      ensures sent <= accepted && returned <= received && forall s :: s in services ==> s.Honoured()
    {
    }

    /** Any sequence of calls, each interrupted anywhere, up to the first one that is still waiting.
        What the device has been given is a prefix of what the callers got accepted, in call order; what
        the callers were given is a prefix of what the device delivered; between calls no needed
        interrupt is off. */
    method Session(calls: seq<Call>)
      returns (taken: seq<seq<Octet>>, given: seq<seq<Octet>>, made: nat, waiting: bool)
      requires Valid() && TxAwake() && RxAwake()
      modifies this, rxBuf, txBuf
      ensures Valid() && TxAwake() && RxAwake() && Later() && forall s :: s in services ==> s.Honoured()
      ensures made <= |calls| && ledger == old(ledger) + Entries(calls[..made], waiting)
      ensures if waiting then made > 0 && !calls[made - 1].nonblock else made == |calls|
      ensures accepted == old(accepted) + Concat(taken) && returned == old(returned) + Concat(given)
      ensures sent <= old(accepted) + Concat(taken) && old(returned) + Concat(given) <= received
      ensures TakenFrom(taken, calls[..made])
    {
      hide Valid, Full, Concat, TakenFrom, Entries, Carried, FullAt, Justified, Reached, TxAwake, RxAwake;
      taken, given, made, waiting := [], [], 0, false;
      NothingTaken();
      while made < |calls| && !waiting
        invariant Valid() && TxAwake() && RxAwake() && Later()
        invariant made <= |calls| && ledger == old(ledger) + Entries(calls[..made], waiting)
        invariant waiting ==> made > 0 && !calls[made - 1].nonblock
        invariant accepted == old(accepted) + Concat(taken) && returned == old(returned) + Concat(given)
        invariant TakenFrom(taken, calls[..made])
        decreases |calls| - made
      {
        Interrupts();
        var call := calls[made];
        assert calls[..made + 1] == calls[..made] + [call];
        match call {
          case WriteCall(data, nonblock, patience) =>
            var r, _, _ := Write(data, nonblock, patience);
            ConcatSnoc(taken, data[..r.n]);
            TakenSnoc(taken, calls[..made], call, r.n);
            taken := taken + [data[..r.n]];
            waiting := r.Waiting?;
          case ReadCall(space, nonblock, patience) =>
            var bytes, r, _ := Read(space, nonblock, patience);
            ConcatSnoc(given, bytes);
            TakenSkip(taken, calls[..made], call);
            given := given + [bytes];
            waiting := r.Spinning?;
        }
        EntriesSnoc(calls[..made], call, waiting);
        made := made + 1;
      }
      Prefixes();
    }
  }

  datatype Call =
    | WriteCall(data: seq<Octet>, nonblock: bool, patience: nat)
    | ReadCall(space: nat, nonblock: bool, patience: nat)

  /** A call that was made, and whether it was still waiting when last seen. */
  datatype Made = Made(call: Call, waiting: bool)

  /** The calls one after the other; only the last may still be waiting. */
  function Entries(calls: seq<Call>, waiting: bool): seq<Made> {
    seq(|calls|, i requires 0 <= i < |calls| => Made(calls[i], waiting && i == |calls| - 1))
  }

  lemma EntriesSnoc(calls: seq<Call>, c: Call, waiting: bool)
    ensures Entries(calls + [c], waiting) == Entries(calls, false) + [Made(c, waiting)]
  {
  }

  function Concat(s: seq<seq<Octet>>): seq<Octet> {
    if s == [] then [] else Concat(s[..|s| - 1]) + s[|s| - 1]
  }

  lemma ConcatSnoc(s: seq<seq<Octet>>, x: seq<Octet>)
    ensures Concat(s + [x]) == Concat(s) + x
  {
    assert (s + [x])[..|s|] == s;
  }

  /** The data of the write calls, in order. */
  function Written(calls: seq<Call>): seq<seq<Octet>> {
    if calls == [] then []
    else Written(calls[..|calls| - 1]) + (match calls[|calls| - 1] case WriteCall(d, _, _) => [d] case _ => [])
  }

  /** One accepted prefix for each write call made. */
  ghost predicate TakenFrom(taken: seq<seq<Octet>>, calls: seq<Call>) {
    |taken| == |Written(calls)| && forall i :: 0 <= i < |taken| ==> taken[i] <= Written(calls)[i]
  }

  lemma NothingTaken()
    ensures TakenFrom([], []) && Concat([]) == [] && Entries([], false) == []
  {
  }

  lemma TakenSnoc(taken: seq<seq<Octet>>, calls: seq<Call>, c: Call, n: nat)
    requires TakenFrom(taken, calls) && c.WriteCall? && n <= |c.data|
    ensures TakenFrom(taken + [c.data[..n]], calls + [c])
  {
    assert (calls + [c])[..|calls|] == calls;
  }

  lemma TakenSkip(taken: seq<seq<Octet>>, calls: seq<Call>, c: Call)
    requires TakenFrom(taken, calls) && c.ReadCall?
    ensures TakenFrom(taken, calls + [c])
  {
    assert (calls + [c])[..|calls|] == calls;
  }
}
