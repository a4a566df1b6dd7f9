/**
 * ngx_http_upstream_ip_hash_module: choosing an upstream peer from the
 * client's address.  A request's selection state is seeded from the top
 * three bytes of the IPv4 address word s_addr as the host reads it; each
 * call then walks a deterministic hash sequence over the peer table,
 * skipping peers already tried for this request and peers that are down,
 * accepting the first one whose failure count allows it (or whose failure
 * timeout has passed), and falling back to round robin after twenty rounds.
 *
 * The peer table and the tried bitmap come from the round-robin module; they
 * are arrays handed in here.  The clock is the parameter `now`, and the
 * round-robin fallback is the opaque result RoundRobin.  Machine words and
 * their bits are the ones of SlabTypes (32-bit words, bits read by halving).
 */
module IpHash {
  import opened SlabTypes

  /** iphp->hash starts at 89. */
  const HashSeed: nat := 89
  const HashMul: nat := 113
  const HashMod: nat := 6271
  /** Rounds before the walk gives up and falls back to round robin. */
  const MaxTries: nat := 20

  /** The fields of an upstream peer that the selection reads or writes. */
  datatype Peer = Peer(down: bool, maxFails: nat, fails: nat, accessed: int, failTimeout: int)

  /** The outcome of a call: peer p was chosen (NGX_OK), or the call went to round robin. */
  datatype Selection = Chosen(peer: nat) | RoundRobin

  /** The per-request state: saved hash, rounds used, tried bitmap and the peer table. */
  datatype IpState = IpState(hash: nat, tries: nat, tried: seq<nat>, peers: seq<Peer>)

  /** A call's result: the new state, the new pc->tries and the selection. */
  datatype Pick = Pick(state: IpState, pcTries: int, sel: Selection)

  // ---------------------------------------------------------------------
  // Seeding (ngx_http_upstream_init_ip_hash_peer)
  // ---------------------------------------------------------------------

  /** The bytes (s_addr >> 24) & 0xff, (s_addr >> 16) & 0xff and (s_addr >> 8) & 0xff. */
  function AddrBytes(sAddr: nat): (a: seq<nat>)
    ensures |a| == 3 && forall i :: 0 <= i < 3 ==> a[i] < 256
  {
    [sAddr / 0x100_0000 % 256, sAddr / 0x1_0000 % 256, sAddr / 0x100 % 256]
  }

  /**
   * The three bytes are exactly the top 24 bits of sAddr, the s_addr word
   * read as a host integer.  On a big-endian host those are the network's
   * first three octets (see AddrOctets).
   */
  lemma AddrBytesNetwork(sAddr: nat)
    requires sAddr < Word32
    ensures var a := AddrBytes(sAddr); sAddr / 0x100 == a[0] * 0x1_0000 + a[1] * 0x100 + a[2]
  {
    var x := sAddr / 0x100;
    assert sAddr / 0x1_0000 == x / 0x100;
    assert sAddr / 0x100_0000 == x / 0x1_0000;
    assert x < 0x100_0000;
  }

  /**
   * Two words get the same bytes, and so the same peers, iff they agree but
   * for their low 8 bits: on a big-endian host, iff the clients share a /24
   * network.
   */
  lemma {:induction false} AddrBytesSameNetwork(x: nat, y: nat)
    requires x < Word32 && y < Word32
    ensures AddrBytes(x) == AddrBytes(y) <==> x / 0x100 == y / 0x100
  {
    AddrBytesNetwork(x);
    AddrBytesNetwork(y);
    if x / 0x100 == y / 0x100 {
      assert x / 0x1_0000 == (x / 0x100) / 0x100 && y / 0x1_0000 == (y / 0x100) / 0x100;
      assert x / 0x100_0000 == (x / 0x100) / 0x1_0000 && y / 0x100_0000 == (y / 0x100) / 0x1_0000;
    }
  }

  /**
   * The s_addr word of the address o[0].o[1].o[2].o[3] as the host reads it:
   * the octets are stored in network order, so a big-endian host sees o[0]
   * in the top byte and a little-endian host sees o[3] there.
   */
  function HostAddr(o: seq<nat>, bigEndian: bool): (w: nat)
    requires |o| == 4 && forall i :: 0 <= i < 4 ==> o[i] < 256
    ensures w < Word32
  {
    if bigEndian then ((o[0] * 0x100 + o[1]) * 0x100 + o[2]) * 0x100 + o[3]
    else ((o[3] * 0x100 + o[2]) * 0x100 + o[1]) * 0x100 + o[0]
  }

  /**
   * The bytes taken from s_addr: on a big-endian host the first three
   * octets in order; on a little-endian host the last three, last first.
   */
  lemma AddrOctets(o: seq<nat>)
    requires |o| == 4 && forall i :: 0 <= i < 4 ==> o[i] < 256
    ensures AddrBytes(HostAddr(o, true)) == o[..3]
    ensures AddrBytes(HostAddr(o, false)) == [o[3], o[2], o[1]]
  {
    ByteDigits(o[0], o[1], o[2], o[3]);
    ByteDigits(o[3], o[2], o[1], o[0]);
  }

  /** The bytes of a word built from four bytes, top byte first. */
  lemma ByteDigits(a: nat, b: nat, c: nat, d: nat)
    requires a < 256 && b < 256 && c < 256 && d < 256
    ensures AddrBytes(((a * 0x100 + b) * 0x100 + c) * 0x100 + d) == [a, b, c]
  {
    var x := ((a * 0x100 + b) * 0x100 + c) * 0x100 + d;
    var y := (a * 0x100 + b) * 0x100 + c;
    DivByte(y, d);
    DivByte(a * 0x100 + b, c);
    DivByte(a, b);
    assert x / 0x100 == y;
    assert x / 0x1_0000 == y / 0x100;
    assert x / 0x100_0000 == y / 0x1_0000;
  }

  lemma DivByte(q: nat, r: nat)
    requires r < 256
    ensures (q * 0x100 + r) / 0x100 == q && (q * 0x100 + r) % 0x100 == r
  {
  }

  // ---------------------------------------------------------------------
  // The hash sequence and the tried bitmap
  // ---------------------------------------------------------------------

  /** The hash after folding in bytes bs, one `hash = (hash * 113 + b) % 6271` per byte. */
  function Mix(h: nat, bs: seq<nat>): nat
  {
    if bs == [] then h else (Mix(h, bs[..|bs| - 1]) * HashMul + bs[|bs| - 1]) % HashMod
  }

  /** Whether peer p's bit is set in the tried bitmap (word p / 32, bit p % 32). */
  predicate Tried(tried: seq<nat>, p: nat)
    requires p / WordBits < |tried|
  {
    Bit(tried[p / WordBits], p % WordBits)
  }

  /** tried[p / 32] |= 1 << (p % 32), for a bit that is clear. */
  function MarkTried(tried: seq<nat>, p: nat): seq<nat>
    requires p / WordBits < |tried|
  {
    tried[p / WordBits := SetBit(tried[p / WordBits], p % WordBits)]
  }

  /** A peer table with at least one peer and a bitmap of 32-bit words with a bit for each. */
  predicate TableOK(tried: seq<nat>, peers: seq<Peer>)
  {
    && 1 <= |peers| <= |tried| * WordBits
    && forall k :: 0 <= k < |tried| ==> tried[k] < Word32
  }

  predicate WellFormed(st: IpState)
  {
    TableOK(st.tried, st.peers) && st.hash < HashMod && st.tries <= MaxTries + 1
  }

  /** A peer index has its bit in the bitmap. */
  lemma PeerWord(tried: seq<nat>, peers: seq<Peer>, p: nat)
    requires TableOK(tried, peers) && p < |peers|
    ensures p / WordBits < |tried|
  {
  }

  /** Marking a clear bit sets it, keeps every other bit and keeps the words 32-bit. */
  lemma MarkTriedBits(tried: seq<nat>, peers: seq<Peer>, p: nat)
    requires TableOK(tried, peers) && p < |peers| && p / WordBits < |tried| && !Tried(tried, p)
    ensures TableOK(MarkTried(tried, p), peers)
    ensures forall q :: 0 <= q < |peers| ==> q / WordBits < |tried| && (Tried(MarkTried(tried, p), q) <==> q == p || Tried(tried, q))
  {
    var w := p / WordBits;
    Pow2Word32();
    SetBitBound(tried[w], p % WordBits, WordBits);
    forall q | 0 <= q < |peers|
      ensures q / WordBits < |tried| && (Tried(MarkTried(tried, p), q) <==> q == p || Tried(tried, q))
    {
      if q / WordBits == w {
        SetBitBits(tried[w], p % WordBits, q % WordBits);
        assert q == w * WordBits + q % WordBits;
      }
    }
  }

  // ---------------------------------------------------------------------
  // The selection (ngx_http_upstream_get_ip_hash_peer)
  // ---------------------------------------------------------------------

  /** Accepted on its failure count: max_fails == 0 or fails < max_fails. */
  predicate Usable(peer: Peer)
  {
    peer.maxFails == 0 || peer.fails < peer.maxFails
  }

  /** Accepted because its failure timeout has passed: now - accessed > fail_timeout. */
  predicate TimedOut(peer: Peer, now: int)
  {
    now - peer.accessed > peer.failTimeout
  }

  /**
   * The `for (;;)` loop from a round with local hash h: one hash round, then
   * the candidate's test.  An accepted candidate is marked tried and its hash
   * saved; a candidate that was not tried but is refused costs one pc->tries
   * (and is marked tried when down); every refused round costs one try, and
   * at twenty tries the call goes to round robin.
   */
  function Walk(h: nat, st: IpState, addr: seq<nat>, now: int, pcTries: int): Pick
    requires WellFormed(st) && st.tries <= MaxTries && |addr| == 3
    decreases MaxTries - st.tries
  {
    var h1 := Mix(h, addr);
    var n := |st.peers|;
    var p := h1 % n;
    PeerWord(st.tried, st.peers, p);
    var peer := st.peers[p];
    var untried := !Tried(st.tried, p);
    if untried && !peer.down && Usable(peer) then
      Pick(st.(hash := h1, tried := MarkTried(st.tried, p)), pcTries, Chosen(p))
    else if untried && !peer.down && TimedOut(peer, now) then
      Pick(st.(hash := h1, tried := MarkTried(st.tried, p), peers := st.peers[p := peer.(fails := 0)]),
           pcTries, Chosen(p))
    else
      var tried1 := if untried && peer.down then (MarkTriedBits(st.tried, st.peers, p); MarkTried(st.tried, p)) else st.tried;
      var pc1 := if untried then pcTries - 1 else pcTries;
      var st1 := st.(tried := tried1, tries := st.tries + 1);
      if st1.tries >= MaxTries then Pick(st1, pc1, RoundRobin)
      else Walk(h1, st1, addr, now, pc1)
  }

  /** A whole call: straight to round robin past twenty tries or with a single peer, else the walk from the saved hash. */
  function GetPeerSpec(st: IpState, addr: seq<nat>, now: int, pcTries: int): Pick
    requires WellFormed(st) && |addr| == 3
  {
    if st.tries > MaxTries || |st.peers| == 1 then Pick(st, pcTries, RoundRobin)
    else Walk(st.hash, st, addr, now, pcTries)
  }

  // ---------------------------------------------------------------------
  // What a call does
  // ---------------------------------------------------------------------

  /**
   * What a walk from st promises: the state stays well formed; tried bits
   * are only ever added, and only for peers that are down or for the chosen
   * one; each round costs at most one pc->tries and the accepting round none;
   * round robin comes only after twenty tries, with the saved hash and the
   * peers untouched; a chosen peer is a peer that was untried and not down,
   * that passed the failure test (its fails reset only when it passed on its
   * timeout), and whose index is the saved hash modulo the peer count.
   */
  ghost predicate Progress(st: IpState, r: Pick, pcTries: int, now: int)
    requires WellFormed(st)
  {
    && WellFormed(r.state) && |r.state.tried| == |st.tried| && |r.state.peers| == |st.peers|
    && st.tries <= r.state.tries
    && pcTries - (r.state.tries - st.tries) <= r.pcTries <= pcTries
    && (forall q :: 0 <= q < |st.peers| && Tried(st.tried, q) ==> Tried(r.state.tried, q))
    && (forall q :: 0 <= q < |st.peers| && Tried(r.state.tried, q) && !Tried(st.tried, q) ==>
          st.peers[q].down || r.sel == Chosen(q))
    && (r.sel.RoundRobin? ==>
          && MaxTries <= r.state.tries && r.state.hash == st.hash && r.state.peers == st.peers)
    && (r.sel.Chosen? ==>
          var p := r.sel.peer;
          && p < |st.peers| && !Tried(st.tried, p) && Tried(r.state.tried, p) && !st.peers[p].down
          && (Usable(st.peers[p]) || TimedOut(st.peers[p], now))
          && r.state.peers == (if Usable(st.peers[p]) then st.peers else st.peers[p := st.peers[p].(fails := 0)])
          && r.state.hash % |st.peers| == p)
  }

  /** The walk keeps its promises, round by round. */
  lemma {:induction false} WalkCorrect(h: nat, st: IpState, addr: seq<nat>, now: int, pcTries: int)
    requires WellFormed(st) && st.tries <= MaxTries && |addr| == 3
    ensures Progress(st, Walk(h, st, addr, now, pcTries), pcTries, now)
    decreases MaxTries - st.tries
  {
    var h1 := Mix(h, addr);
    var p := h1 % |st.peers|;
    PeerWord(st.tried, st.peers, p);
    var peer := st.peers[p];
    var untried := !Tried(st.tried, p);
    if untried && !peer.down && (Usable(peer) || TimedOut(peer, now)) {
      AcceptProgress(st, h1, p, now, pcTries);
    } else {
      var tried1 := if untried && peer.down then MarkTried(st.tried, p) else st.tried;
      var pc1 := if untried then pcTries - 1 else pcTries;
      var st1 := st.(tried := tried1, tries := st.tries + 1);
      WalkRefused(h, st, addr, now, pcTries, h1, p, tried1, pc1);
      if st1.tries < MaxTries {
        WalkCorrect(h1, st1, addr, now, pc1);
      }
      RefuseProgress(st, p, st1, Walk(h, st, addr, now, pcTries), now, pcTries, pc1);
    }
  }

  /** The accepting round keeps the promises of Progress. */
  lemma AcceptProgress(st: IpState, h1: nat, p: nat, now: int, pcTries: int)
    requires WellFormed(st) && h1 < HashMod && p == h1 % |st.peers| && p / WordBits < |st.tried|
    requires !Tried(st.tried, p) && !st.peers[p].down && (Usable(st.peers[p]) || TimedOut(st.peers[p], now))
    ensures var peers1 := if Usable(st.peers[p]) then st.peers else st.peers[p := st.peers[p].(fails := 0)];
      Progress(st, Pick(st.(hash := h1, tried := MarkTried(st.tried, p), peers := peers1), pcTries, Chosen(p)), pcTries, now)
  {
    MarkTriedBits(st.tried, st.peers, p);
  }

  /** A refusing round followed by a walk that keeps the promises of Progress keeps them too. */
  lemma RefuseProgress(st: IpState, p: nat, st1: IpState, r: Pick, now: int, pcTries: int, pc1: int)
    requires WellFormed(st) && p < |st.peers| && p / WordBits < |st.tried|
    requires Tried(st.tried, p) || st.peers[p].down || !(Usable(st.peers[p]) || TimedOut(st.peers[p], now))
    requires st1 == st.(tried := if !Tried(st.tried, p) && st.peers[p].down then MarkTried(st.tried, p) else st.tried,
                        tries := st.tries + 1)
    requires pc1 == if !Tried(st.tried, p) then pcTries - 1 else pcTries
    requires WellFormed(st1)
    requires st1.tries >= MaxTries ==> r == Pick(st1, pc1, RoundRobin)
    requires st1.tries < MaxTries ==> Progress(st1, r, pc1, now)
    ensures Progress(st, r, pcTries, now)
  {
    var n := |st.peers|;
    if !Tried(st.tried, p) && st.peers[p].down {
      MarkTriedBits(st.tried, st.peers, p);
    }
    assert forall q :: 0 <= q < n && Tried(st.tried, q) ==> Tried(st1.tried, q);
    assert forall q :: 0 <= q < n && Tried(st1.tried, q) && !Tried(st.tried, q) ==> q == p && st.peers[p].down;
  }

  /**
   * ngx_http_upstream_get_ip_hash_peer: past twenty tries or with a single
   * peer the call goes to round robin and changes nothing; otherwise it walks
   * the hash sequence with the promises of Progress.
   */
  lemma GetPeerCorrect(st: IpState, addr: seq<nat>, now: int, pcTries: int)
    requires WellFormed(st) && |addr| == 3
    ensures var r := GetPeerSpec(st, addr, now, pcTries);
      && WellFormed(r.state)
      && ((st.tries > MaxTries || |st.peers| == 1) ==> r == Pick(st, pcTries, RoundRobin))
      && (!(st.tries > MaxTries || |st.peers| == 1) ==> Progress(st, r, pcTries, now))
      && (!(st.tries > MaxTries || |st.peers| == 1) ==> Trace(st, st.hash, addr, now, pcTries, r))
  {
    if !(st.tries > MaxTries || |st.peers| == 1) {
      WalkCorrect(st.hash, st, addr, now, pcTries);
      WalkTrace(st.hash, st, addr, now, pcTries);
    }
  }

  /** One accepting round of the walk, in the terms the loop of PeerData.GetPeer uses. */
  lemma WalkChosen(h: nat, st: IpState, addr: seq<nat>, now: int, pc: int, h1: nat, p: nat, peers1: seq<Peer>)
    requires WellFormed(st) && st.tries <= MaxTries && |addr| == 3
    requires h1 == Mix(h, addr) && p == h1 % |st.peers| && p / WordBits < |st.tried|
    requires !Tried(st.tried, p) && !st.peers[p].down
    requires || (Usable(st.peers[p]) && peers1 == st.peers)
             || (!Usable(st.peers[p]) && TimedOut(st.peers[p], now) && peers1 == st.peers[p := st.peers[p].(fails := 0)])
    ensures Walk(h, st, addr, now, pc) == Pick(st.(hash := h1, tried := MarkTried(st.tried, p), peers := peers1), pc, Chosen(p))
  {
  }

  /** One refusing round of the walk, in the terms the loop of PeerData.GetPeer uses. */
  lemma WalkRefused(h: nat, st: IpState, addr: seq<nat>, now: int, pc: int, h1: nat, p: nat, tried1: seq<nat>, pc1: int)
    requires WellFormed(st) && st.tries <= MaxTries && |addr| == 3
    requires h1 == Mix(h, addr) && p == h1 % |st.peers| && p / WordBits < |st.tried|
    requires Tried(st.tried, p) || st.peers[p].down || !(Usable(st.peers[p]) || TimedOut(st.peers[p], now))
    requires tried1 == if !Tried(st.tried, p) && st.peers[p].down then MarkTried(st.tried, p) else st.tried
    requires pc1 == if !Tried(st.tried, p) then pc - 1 else pc
    ensures WellFormed(st.(tried := tried1, tries := st.tries + 1))
    ensures Walk(h, st, addr, now, pc) ==
              if st.tries + 1 >= MaxTries then Pick(st.(tried := tried1, tries := st.tries + 1), pc1, RoundRobin)
              else Walk(h1, st.(tried := tried1, tries := st.tries + 1), addr, now, pc1)
  {
    if !Tried(st.tried, p) && st.peers[p].down {
      MarkTriedBits(st.tried, st.peers, p);
    }
  }

  // ---------------------------------------------------------------------
  // The walk round by round
  // ---------------------------------------------------------------------

  /** The local hash after k rounds from h: Mix applied k times. */
  function HashAt(h: nat, addr: seq<nat>, k: nat): nat
    decreases k
  {
    if k == 0 then h else HashAt(Mix(h, addr), addr, k - 1)
  }

  /** The peer examined in round j (from 1) of a walk from local hash h over n peers. */
  function Cand(n: nat, h: nat, addr: seq<nat>, j: nat): (c: nat)
    requires n > 0
    ensures c < n
  {
    HashAt(h, addr, j) % n
  }

  /** Some round before round j of the walk from h examined peer q, and q is down. */
  predicate MetDown(peers: seq<Peer>, h: nat, addr: seq<nat>, j: nat, q: nat)
    requires q < |peers|
    decreases j
  {
    j > 1 && ((Cand(|peers|, h, addr, 1) == q && peers[q].down) || MetDown(peers, Mix(h, addr), addr, j - 1, q))
  }

  /** Peer p may be chosen on entry: untried, not down, and passing its failure count or its timeout. */
  predicate Acceptable(st: IpState, p: nat, now: int)
    requires WellFormed(st) && p < |st.peers|
  {
    PeerWord(st.tried, st.peers, p);
    !Tried(st.tried, p) && !st.peers[p].down && (Usable(st.peers[p]) || TimedOut(st.peers[p], now))
  }

  /** The candidate of round j was untried when examined: clear on entry and not marked as down earlier in the walk. */
  predicate Fresh(tried: seq<nat>, peers: seq<Peer>, h: nat, addr: seq<nat>, j: nat)
    requires TableOK(tried, peers)
  {
    var c := Cand(|peers|, h, addr, j);
    PeerWord(tried, peers, c);
    !Tried(tried, c) && !MetDown(peers, h, addr, j, c)
  }

  /** The pc->tries spent in rounds 1..k: one for each round whose candidate was still untried. */
  function Charged(tried: seq<nat>, peers: seq<Peer>, h: nat, addr: seq<nat>, k: nat): (r: nat)
    requires TableOK(tried, peers)
    ensures r <= k
  {
    if k == 0 then 0
    else Charged(tried, peers, h, addr, k - 1) + (if Fresh(tried, peers, h, addr, k) then 1 else 0)
  }

  /** None of the candidates of rounds 1..k of the walk from h could be chosen. */
  ghost predicate Refused(st: IpState, h: nat, addr: seq<nat>, now: int, k: nat)
    requires WellFormed(st)
  {
    forall j :: 1 <= j <= k ==> !Acceptable(st, Cand(|st.peers|, h, addr, j), now)
  }

  /**
   * The tried bitmap after k refused rounds of the walk from h, and the
   * selection sel: exactly the bits set on entry, those of the down
   * candidates met and that of the chosen peer.
   */
  ghost predicate TriedAfter(st: IpState, h: nat, addr: seq<nat>, k: nat, tried: seq<nat>, sel: Selection)
    requires WellFormed(st)
  {
    && |tried| == |st.tried|
    && forall q :: 0 <= q < |st.peers| ==>
         (PeerWord(st.tried, st.peers, q);
          Tried(tried, q) <==> Tried(st.tried, q) || MetDown(st.peers, h, addr, k + 1, q) || sel == Chosen(q))
  }

  /** st1 is st after a refused first round of the walk from h: one more try, and the candidate marked when down. */
  ghost predicate FirstMarked(st: IpState, h: nat, addr: seq<nat>, st1: IpState)
    requires WellFormed(st)
  {
    && WellFormed(st1) && st1.peers == st.peers && st1.hash == st.hash && st1.tries == st.tries + 1
    && TriedAfter(st, h, addr, 1, st1.tried, RoundRobin)
  }

  /**
   * The walk from local hash h, started in state st, as a whole: with k the
   * rounds refused (the tries it used), none of the candidates of rounds
   * 1..k could be chosen; pc->tries fell by one for each of those rounds
   * whose candidate was still untried; the tried bits set are exactly those
   * of the down candidates met and of the chosen peer.  A chosen peer is
   * the candidate of round k + 1, reached with hash Mix^(k+1)(h) before the
   * twentieth try; round robin comes at the first round that brings the
   * tries to twenty or more.
   */
  ghost predicate Trace(st: IpState, h: nat, addr: seq<nat>, now: int, pcTries: int, r: Pick)
    requires WellFormed(st)
  {
    && WellFormed(r.state) && |r.state.peers| == |st.peers|
    && st.tries <= r.state.tries
    && (var k := r.state.tries - st.tries;
        && Refused(st, h, addr, now, k)
        && r.pcTries == pcTries - Charged(st.tried, st.peers, h, addr, k)
        && TriedAfter(st, h, addr, k, r.state.tried, r.sel)
        && (r.sel.RoundRobin? ==>
              && r.state.tries == (if st.tries < MaxTries then MaxTries else MaxTries + 1)
              && r.state.hash == st.hash && r.state.peers == st.peers)
        && (r.sel.Chosen? ==> ChosenAt(st, h, addr, now, k, r)))
  }

  /**
   * A walk from h that refused k rounds ended by choosing the candidate of
   * round k + 1, before the twentieth try, with that round's hash saved;
   * the peer's fails were reset when only its timeout let it pass.
   */
  ghost predicate ChosenAt(st: IpState, h: nat, addr: seq<nat>, now: int, k: nat, r: Pick)
    requires WellFormed(st) && r.sel.Chosen?
  {
    var p := r.sel.peer;
    && p == Cand(|st.peers|, h, addr, k + 1) && Acceptable(st, p, now)
    && r.state.hash == HashAt(h, addr, k + 1)
    && (k == 0 || r.state.tries < MaxTries)
    && r.state.peers == (if Usable(st.peers[p]) then st.peers else st.peers[p := st.peers[p].(fails := 0)])
  }

  /** The walk is the first-fit search along the hash sequence that Trace describes. */
  lemma {:induction false} WalkTrace(h: nat, st: IpState, addr: seq<nat>, now: int, pcTries: int)
    requires WellFormed(st) && st.tries <= MaxTries && |addr| == 3
    ensures Trace(st, h, addr, now, pcTries, Walk(h, st, addr, now, pcTries))
    decreases MaxTries - st.tries
  {
    var h1 := Mix(h, addr);
    var p := h1 % |st.peers|;
    PeerWord(st.tried, st.peers, p);
    assert Cand(|st.peers|, h, addr, 1) == p;
    var peer := st.peers[p];
    if Acceptable(st, p, now) {
      var peers1 := if Usable(peer) then st.peers else st.peers[p := peer.(fails := 0)];
      WalkChosen(h, st, addr, now, pcTries, h1, p, peers1);
      AcceptTrace(st, h, addr, now, pcTries, p);
    } else {
      var tried1 := if !Tried(st.tried, p) && peer.down then MarkTried(st.tried, p) else st.tried;
      var pc1 := if !Tried(st.tried, p) then pcTries - 1 else pcTries;
      var st1 := st.(tried := tried1, tries := st.tries + 1);
      WalkRefused(h, st, addr, now, pcTries, h1, p, tried1, pc1);
      FirstRound(st, h, addr, st1);
      var r := Walk(h, st, addr, now, pcTries);
      if st1.tries < MaxTries {
        WalkTrace(h1, st1, addr, now, pc1);
        RefuseTrace(st, h, addr, now, pcTries, st1, pc1, r);
      } else {
        LastTrace(st, h, addr, now, pcTries, st1, pc1);
      }
    }
  }

  /** A walk that accepts its first candidate. */
  lemma AcceptTrace(st: IpState, h: nat, addr: seq<nat>, now: int, pcTries: int, p: nat)
    requires WellFormed(st) && |addr| == 3 && p < |st.peers| && p == Cand(|st.peers|, h, addr, 1)
    requires Acceptable(st, p, now)
    ensures var peers1 := if Usable(st.peers[p]) then st.peers else st.peers[p := st.peers[p].(fails := 0)];
      (PeerWord(st.tried, st.peers, p);
       Trace(st, h, addr, now, pcTries, Pick(st.(hash := Mix(h, addr), tried := MarkTried(st.tried, p), peers := peers1), pcTries, Chosen(p))))
  {
    PeerWord(st.tried, st.peers, p);
    MarkTriedBits(st.tried, st.peers, p);
    assert HashAt(h, addr, 1) == Mix(h, addr);
  }

  /** The state after a refused first round: one more try, and the candidate's bit set when it was untried and down. */
  lemma FirstRound(st: IpState, h: nat, addr: seq<nat>, st1: IpState)
    requires WellFormed(st) && st.tries <= MaxTries && |addr| == 3
    requires var c := Cand(|st.peers|, h, addr, 1);
      (PeerWord(st.tried, st.peers, c);
       st1 == st.(tried := if !Tried(st.tried, c) && st.peers[c].down then MarkTried(st.tried, c) else st.tried,
                  tries := st.tries + 1))
    ensures FirstMarked(st, h, addr, st1)
  {
    var c := Cand(|st.peers|, h, addr, 1);
    PeerWord(st.tried, st.peers, c);
    if !Tried(st.tried, c) && st.peers[c].down {
      MarkTriedBits(st.tried, st.peers, c);
    }
    forall q | 0 <= q < |st.peers|
      ensures MetDown(st.peers, h, addr, 2, q) == (q == c && st.peers[q].down)
    {
    }
  }

  /** A walk whose first round is refused and brings the tries to twenty. */
  lemma LastTrace(st: IpState, h: nat, addr: seq<nat>, now: int, pcTries: int, st1: IpState, pc1: int)
    requires WellFormed(st) && st.tries <= MaxTries && |addr| == 3
    requires var c := Cand(|st.peers|, h, addr, 1);
      && !Acceptable(st, c, now)
      && (PeerWord(st.tried, st.peers, c);
          pc1 == if !Tried(st.tried, c) then pcTries - 1 else pcTries)
    requires FirstMarked(st, h, addr, st1) && st1.tries >= MaxTries
    ensures Trace(st, h, addr, now, pcTries, Pick(st1, pc1, RoundRobin))
  {
    var c := Cand(|st.peers|, h, addr, 1);
    assert Fresh(st.tried, st.peers, h, addr, 1) == !Tried(st.tried, c);
  }

  /** A refused first round followed by a walk that Trace describes is a walk that Trace describes. */
  lemma RefuseTrace(st: IpState, h: nat, addr: seq<nat>, now: int, pcTries: int, st1: IpState, pc1: int, r: Pick)
    requires WellFormed(st) && st.tries <= MaxTries && |addr| == 3
    requires var c := Cand(|st.peers|, h, addr, 1);
      && !Acceptable(st, c, now)
      && (PeerWord(st.tried, st.peers, c);
          pc1 == if !Tried(st.tried, c) then pcTries - 1 else pcTries)
    requires FirstMarked(st, h, addr, st1) && st1.tries < MaxTries
    requires Trace(st1, Mix(h, addr), addr, now, pc1, r)
    ensures Trace(st, h, addr, now, pcTries, r)
  {
    var h1 := Mix(h, addr);
    var k1: nat := r.state.tries - st1.tries;
    assert Refused(st1, h1, addr, now, k1);
    assert TriedAfter(st1, h1, addr, k1, r.state.tried, r.sel);
    ChargedShift(st, h, addr, st1, k1);
    RefusedShift(st, h, addr, now, st1, k1);
    TriedShift(st, h, addr, st1, k1, r.state.tried, r.sel);
    if r.sel.Chosen? {
      assert ChosenAt(st1, h1, addr, now, k1, r);
      ChosenShift(st, h, addr, now, st1, k1, r);
    }
  }

  /** A peer chosen in round k + 1 of the walk after the first round is the one chosen in round k + 2 from h. */
  lemma ChosenShift(st: IpState, h: nat, addr: seq<nat>, now: int, st1: IpState, k: nat, r: Pick)
    requires WellFormed(st) && |addr| == 3 && r.sel.Chosen? && r.sel.peer < |st.peers|
    requires FirstMarked(st, h, addr, st1)
    requires ChosenAt(st1, Mix(h, addr), addr, now, k, r) && r.state.tries == st1.tries + k < MaxTries
    ensures ChosenAt(st, h, addr, now, k + 1, r)
  {
    assert HashAt(h, addr, k + 2) == HashAt(Mix(h, addr), addr, k + 1);
    assert Cand(|st.peers|, h, addr, k + 2) == Cand(|st.peers|, Mix(h, addr), addr, k + 1);
    AcceptableShift(st, h, addr, st1, r.sel.peer, now);
  }

  /** Rounds 2..k + 1 refused from h are rounds 1..k refused after the first round. */
  lemma RefusedShift(st: IpState, h: nat, addr: seq<nat>, now: int, st1: IpState, k: nat)
    requires WellFormed(st) && |addr| == 3
    requires FirstMarked(st, h, addr, st1)
    requires !Acceptable(st, Cand(|st.peers|, h, addr, 1), now)
    requires Refused(st1, Mix(h, addr), addr, now, k)
    ensures Refused(st, h, addr, now, k + 1)
  {
    var n := |st.peers|;
    forall j | 1 <= j <= k + 1
      ensures !Acceptable(st, Cand(n, h, addr, j), now)
    {
      if j > 1 {
        assert Cand(n, h, addr, j) == Cand(n, Mix(h, addr), addr, j - 1);
        AcceptableShift(st, h, addr, st1, Cand(n, h, addr, j), now);
      }
    }
  }

  /** The tried bits after k rounds from the state after the first round are those after k + 1 rounds from h. */
  lemma TriedShift(st: IpState, h: nat, addr: seq<nat>, st1: IpState, k: nat, tried: seq<nat>, sel: Selection)
    requires WellFormed(st) && |addr| == 3
    requires FirstMarked(st, h, addr, st1)
    requires TriedAfter(st1, Mix(h, addr), addr, k, tried, sel)
    ensures TriedAfter(st, h, addr, k + 1, tried, sel)
  {
    forall q | 0 <= q < |st.peers|
      ensures MetDown(st.peers, h, addr, k + 2, q) == MetDown(st.peers, h, addr, 2, q) || MetDown(st.peers, Mix(h, addr), addr, k + 1, q)
    {
    }
  }

  /** Marking the first candidate when it is down changes no peer's acceptability. */
  lemma AcceptableShift(st: IpState, h: nat, addr: seq<nat>, st1: IpState, q: nat, now: int)
    requires WellFormed(st) && |addr| == 3 && q < |st.peers|
    requires FirstMarked(st, h, addr, st1)
    ensures Acceptable(st1, q, now) == Acceptable(st, q, now)
  {
    assert MetDown(st.peers, h, addr, 2, q) == (q == Cand(|st.peers|, h, addr, 1) && st.peers[q].down);
  }

  /** The pc->tries of rounds 2..k + 1 of a walk are those of rounds 1..k of the walk after the first round. */
  lemma {:induction false} ChargedShift(st: IpState, h: nat, addr: seq<nat>, st1: IpState, k: nat)
    requires WellFormed(st) && |addr| == 3
    requires FirstMarked(st, h, addr, st1)
    ensures var c := Cand(|st.peers|, h, addr, 1);
      (PeerWord(st.tried, st.peers, c);
       Charged(st.tried, st.peers, h, addr, k + 1)
         == (if Tried(st.tried, c) then 0 else 1) + Charged(st1.tried, st.peers, Mix(h, addr), addr, k))
  {
    var c := Cand(|st.peers|, h, addr, 1);
    PeerWord(st.tried, st.peers, c);
    if k == 0 {
      assert Fresh(st.tried, st.peers, h, addr, 1) == !Tried(st.tried, c);
    } else {
      ChargedShift(st, h, addr, st1, k - 1);
      FreshShift(st, h, addr, st1, k);
    }
  }

  /** Round j + 1 of a walk is fresh iff round j of the walk after the first round is. */
  lemma FreshShift(st: IpState, h: nat, addr: seq<nat>, st1: IpState, j: nat)
    requires WellFormed(st) && |addr| == 3 && j >= 1
    requires FirstMarked(st, h, addr, st1)
    ensures Fresh(st.tried, st.peers, h, addr, j + 1) == Fresh(st1.tried, st.peers, Mix(h, addr), addr, j)
  {
    var n := |st.peers|;
    var c := Cand(n, h, addr, j + 1);
    assert c == Cand(n, Mix(h, addr), addr, j);
    assert MetDown(st.peers, h, addr, 2, c) == (c == Cand(n, h, addr, 1) && st.peers[c].down);
  }

  // ---------------------------------------------------------------------
  // The per-request peer data (ngx_http_upstream_ip_hash_peer_data_t)
  // ---------------------------------------------------------------------

  class PeerData {
    var hash: nat
    /** AF_INET only: the top three bytes of s_addr read as a host integer. */
    const addr: seq<nat>
    var tries: nat
    /** rrp.tried: one bit per peer. */
    const tried: array<nat>
    /** rrp.peers->peer; the peer count is its length. */
    const peers: array<Peer>

    ghost function State(): IpState
      reads this, tried, peers
    {
      IpState(hash, tries, tried[..], peers[..])
    }

    ghost predicate Valid()
      reads this, tried, peers
    {
      |addr| == 3 && WellFormed(State())
    }

    /**
     * ngx_http_upstream_init_ip_hash_peer, past the round-robin set-up that
     * provides the tried bitmap and the peer table: the address bytes are
     * taken from s_addr, the hash starts at 89 and no round is used.
     */
    constructor Init(sAddr: nat, tried: array<nat>, peers: array<Peer>)
      requires TableOK(tried[..], peers[..])
      ensures this.addr == AddrBytes(sAddr) && hash == HashSeed && tries == 0
      ensures this.tried == tried && this.peers == peers
      ensures Valid()
    {
      addr := AddrBytes(sAddr);
      hash := HashSeed;
      tries := 0;
      this.tried := tried;
      this.peers := peers;
    }

    /** One hash round: the three address bytes folded into h. */
    method MixAddr(h: nat) returns (r: nat)
      requires |addr| == 3
      ensures r == Mix(h, addr) && r < HashMod
    {
      r := h;
      for i := 0 to 3
        invariant r == Mix(h, addr[..i])
      {
        assert addr[..i + 1][..i] == addr[..i];
        r := (r * HashMul + addr[i]) % HashMod;
      }
      assert addr[..3] == addr;
    }

    /**
     * ngx_http_upstream_get_ip_hash_peer, for the clock value now and the
     * connection's pc->tries: returns the selection and the new pc->tries.
     */
    method GetPeer(now: int, pcTries: int) returns (sel: Selection, pcTriesOut: int)
      requires Valid()
      modifies this, tried, peers
      ensures Pick(State(), pcTriesOut, sel) == GetPeerSpec(old(State()), addr, now, pcTries)
      ensures Valid()
    {
      pcTriesOut := pcTries;
      if tries > MaxTries || peers.Length == 1 {
        sel := RoundRobin;
        return;
      }
      ghost var s0 := State();
      var h: nat := hash;
      while true
        invariant Valid() && tries <= MaxTries
        invariant Walk(h, State(), addr, now, pcTriesOut) == GetPeerSpec(s0, addr, now, pcTries)
        decreases MaxTries - tries
      {
        var finished;
        h, sel, pcTriesOut, finished := Round(h, now, pcTriesOut);
        if finished {
          return;
        }
      }
    }

    /**
     * One pass of the `for (;;)` loop from local hash h: either the walk ends
     * here (a peer is chosen, or the twentieth try goes to round robin), or it
     * goes on from the new hash with one more try used.
     */
    method Round(h: nat, now: int, pc: int) returns (h1: nat, sel: Selection, pcOut: int, finished: bool)
      requires Valid() && tries <= MaxTries
      modifies this, tried, peers
      ensures Valid()
      ensures finished ==> Pick(State(), pcOut, sel) == Walk(h, old(State()), addr, now, pc)
      ensures !finished ==> tries == old(tries) + 1 <= MaxTries && Walk(h1, State(), addr, now, pcOut) == Walk(h, old(State()), addr, now, pc)
    {
      ghost var s := State();
      pcOut := pc;
      h1 := MixAddr(h);
      var p := h1 % peers.Length;
      PeerWord(tried[..], peers[..], p);
      var w := p / WordBits;
      if !Bit(tried[w], p % WordBits) {
        var peer := peers[p];
        if !peer.down {
          if peer.maxFails == 0 || peer.fails < peer.maxFails {
            Accept(p, h1);
            sel, finished := Chosen(p), true;
            WalkChosen(h, s, addr, now, pc, h1, p, s.peers);
            return;
          }
          if now - peer.accessed > peer.failTimeout {
            peers[p] := peer.(fails := 0);
            Accept(p, h1);
            sel, finished := Chosen(p), true;
            WalkChosen(h, s, addr, now, pc, h1, p, s.peers[p := peer.(fails := 0)]);
            return;
          }
        } else {
          MarkTriedBits(tried[..], peers[..], p);
          tried[w] := SetBit(tried[w], p % WordBits);
          assert tried[..] == MarkTried(s.tried, p);
        }
        pcOut := pcOut - 1;
      }
      tries := tries + 1;
      WalkRefused(h, s, addr, now, pc, h1, p, tried[..], pcOut);
      assert State() == s.(tried := tried[..], tries := s.tries + 1);
      sel, finished := RoundRobin, tries >= MaxTries;
    }

    /** The tail of an accepting round: the peer's tried bit is set and the hash saved. */
    method Accept(p: nat, h: nat)
      requires p < peers.Length && TableOK(tried[..], peers[..])
      requires p / WordBits < tried.Length && !Tried(tried[..], p)
      modifies this, tried
      ensures tried[..] == MarkTried(old(tried[..]), p) && hash == h && tries == old(tries)
      ensures TableOK(tried[..], peers[..])
    {
      MarkTriedBits(tried[..], peers[..], p);
      tried[p / WordBits] := SetBit(tried[p / WordBits], p % WordBits);
      hash := h;
    }
  }
}
