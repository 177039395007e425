/**
 The option field of a DHCP message (section 2 of RFC 2132): a four byte cookie followed by options
 of one code byte, one length byte and a body, closed by END.  Two loops of the client read it:
 `getOption`, which stops at the first option with the code it looks for, and the loop in
 `configureDhcp`, which visits them all.  Both give every code but END a length byte.
 */
module DhcpOptions {
  import opened Bytes
  import opened Wrappers

  const OPT_SUBNET_MASK: byte := 1
  const OPT_GATEWAY: byte := 3
  const OPT_DNS: byte := 6
  const OPT_MTU: byte := 26
  const OPT_BROADCAST_ADDR: byte := 28
  const OPT_REQUESTED_IP: byte := 50
  const OPT_LEASE_TIME: byte := 51
  const OPT_MESSAGE_TYPE: byte := 53
  const OPT_SERVER_ID: byte := 54
  const OPT_PARAMETER_LIST: byte := 55
  const OPT_T1: byte := 58
  const OPT_T2: byte := 59
  const OPT_END: byte := 255

  const COOKIE: seq<byte> := [0x63, 0x82, 0x53, 0x63]

  datatype Opt = Opt(code: byte, body: seq<byte>)

  predicate Encodable(opts: seq<Opt>)
  {
    forall k :: 0 <= k < |opts| ==> opts[k].code != OPT_END && |opts[k].body| <= 0xFF
  }

  function Encode(opts: seq<Opt>): seq<byte>
    requires Encodable(opts)
  {
    if opts == [] then [] else [opts[0].code, |opts[0].body|] + opts[0].body + Encode(opts[1..])
  }

  lemma {:induction false} EncodeAppend(opts: seq<Opt>, o: Opt)
    requires Encodable(opts + [o])
    ensures Encodable(opts) && Encode(opts + [o]) == Encode(opts) + [o.code, |o.body|] + o.body
  {
    assert forall k :: 0 <= k < |opts| ==> (opts + [o])[k] == opts[k];
    if opts == [] {
      assert opts + [o] == [o] && [o][1..] == [];
    } else {
      assert (opts + [o])[1..] == opts[1..] + [o];
      EncodeAppend(opts[1..], o);
    }
  }

  /** The bodies of the options with the given code, in order. */
  function Bodies(opts: seq<Opt>, code: byte): seq<seq<byte>>
  {
    if opts == [] then []
    else (if opts[0].code == code then [opts[0].body] else []) + Bodies(opts[1..], code)
  }

  lemma {:induction false} UniqueBody(opts: seq<Opt>, k: nat, code: byte)
    requires k < |opts| && opts[k].code == code
    requires forall j :: 0 <= j < |opts| && j != k ==> opts[j].code != code
    ensures Bodies(opts, code) == [opts[k].body]
  {
    if k == 0 {
      NoBody(opts[1..], code);
    } else {
      UniqueBody(opts[1..], k - 1, code);
    }
  }

  lemma {:induction false} NoBody(opts: seq<Opt>, code: byte)
    requires forall j :: 0 <= j < |opts| ==> opts[j].code != code
    ensures Bodies(opts, code) == []
  {
    if opts != [] {
      NoBody(opts[1..], code);
    }
  }

  /** The option list `opts` is stored at `options[at..]`, END follows, and all of it lies in the
      first `size` bytes.  Anything may come after END. */
  predicate EndTerminated(options: seq<byte>, size: nat, at: nat, opts: seq<Opt>)
  {
    && Encodable(opts)
    && at + |Encode(opts)| + 1 <= size <= |options|
    && options[at..at + |Encode(opts)| + 1] == Encode(opts) + [OPT_END]
  }

  lemma StepOver(options: seq<byte>, size: nat, at: nat, opts: seq<Opt>)
    requires EndTerminated(options, size, at, opts) && opts != []
    ensures var n := |opts[0].body|;
            && at + 2 + n < size
            && options[at] == opts[0].code != OPT_END
            && options[at + 1] == n
            && options[at + 2..at + 2 + n] == opts[0].body
            && EndTerminated(options, size, at + 2 + n, opts[1..])
  {
    var n, rest := |opts[0].body|, Encode(opts[1..]) + [OPT_END];
    var end := at + |Encode(opts)| + 1;
    var stored := options[at..end];
    assert stored == [opts[0].code, n] + opts[0].body + rest;
    assert options[at] == stored[0] && options[at + 1] == stored[1];
    SliceOfSlice(options, at, end, 2, 2 + n);
    SliceOfSlice(options, at, end, 2 + n, |stored|);
  }

  /** Where `getOption` found an option: its body starts at `at` and its length byte is `len`. */
  datatype Located = Located(at: nat, len: byte)

  /** The loop of `getOption`, from offset `i` of an option field of `size` bytes. */
  function Find(options: seq<byte>, size: nat, code: byte, i: nat): (r: Option<Located>)
    requires size <= |options|
    ensures r.Some? ==> r.value.at < size
    decreases size - i
  {
    if i + 2 >= size || options[i] == OPT_END then None
    else if options[i] == code then Some(Located(i + 2, options[i + 1]))
    else Find(options, size, code, i + 2 + options[i + 1])
  }

  /** `r` gives the length and the place of the first of `bodies`, or says that there is none. */
  predicate Locates(options: seq<byte>, size: nat, r: Option<Located>, bodies: seq<seq<byte>>)
    requires size <= |options|
  {
    if bodies == [] then r == None
    else && r.Some?
         && r.value.len == |bodies[0]|
         && r.value.at + r.value.len < size
         && options[r.value.at..r.value.at + r.value.len] == bodies[0]
  }

  /** The first option of the list is the one that is asked for. */
  lemma FindStops(options: seq<byte>, size: nat, code: byte, at: nat, opts: seq<Opt>)
    requires EndTerminated(options, size, at, opts) && opts != [] && opts[0].code == code
    ensures Find(options, size, code, at) == Some(Located(at + 2, |opts[0].body|))
    ensures at + 2 + |opts[0].body| < size && options[at + 2..at + 2 + |opts[0].body|] == opts[0].body
  {
    StepOver(options, size, at, opts);
  }

  /** It is another one. */
  lemma FindGoesOn(options: seq<byte>, size: nat, code: byte, at: nat, opts: seq<Opt>)
    requires EndTerminated(options, size, at, opts) && opts != [] && opts[0].code != code
    ensures at + 2 + |opts[0].body| < size && EndTerminated(options, size, at + 2 + |opts[0].body|, opts[1..])
    ensures Find(options, size, code, at) == Find(options, size, code, at + 2 + |opts[0].body|)
  {
    StepOver(options, size, at, opts);
  }

  lemma FindEnds(options: seq<byte>, size: nat, code: byte, at: nat)
    requires EndTerminated(options, size, at, [])
    ensures Find(options, size, code, at) == None
  {
    assert options[at] == options[at..at + 1][0];
  }

  /** On a well-formed option list `getOption` returns the length and the bytes of the first option
      with the code it is asked for, and nothing when there is none. */
  lemma {:induction false} FindsFirst(options: seq<byte>, size: nat, code: byte, at: nat, opts: seq<Opt>)
    requires EndTerminated(options, size, at, opts)
    ensures Locates(options, size, Find(options, size, code, at), Bodies(opts, code))
    decreases |opts|
  {
    if opts == [] {
      FindEnds(options, size, code, at);
    } else if opts[0].code == code {
      FindStops(options, size, code, at, opts);
      assert Bodies(opts, code)[0] == opts[0].body;
    } else {
      FindGoesOn(options, size, code, at, opts);
      FindsFirst(options, size, code, at + 2 + |opts[0].body|, opts[1..]);
      assert Bodies(opts, code) == Bodies(opts[1..], code);
    }
  }

  // ----- Lists that are cut off --------------------------------------------------------------------

  /** The option list `opts` is stored at `options[at..]`, whatever follows. */
  predicate Stored(options: seq<byte>, at: nat, opts: seq<Opt>)
  {
    Encodable(opts) && at + |Encode(opts)| <= |options| && options[at..at + |Encode(opts)|] == Encode(opts)
  }

  lemma StoredHead(options: seq<byte>, at: nat, opts: seq<Opt>)
    requires Stored(options, at, opts) && opts != []
    ensures var n := |opts[0].body|;
            && at + 2 + n + |Encode(opts[1..])| == at + |Encode(opts)|
            && options[at] == opts[0].code != OPT_END && options[at + 1] == n
            && options[at + 2..at + 2 + n] == opts[0].body
            && Stored(options, at + 2 + n, opts[1..])
  {
    EncodeHead(opts);
    PartsOfSlice(options, at, at + |Encode(opts)|, opts[0].code, |opts[0].body|, opts[0].body, Encode(opts[1..]));
  }

  lemma EncodeHead(opts: seq<Opt>)
    requires Encodable(opts) && opts != []
    ensures Encodable(opts[1..]) && opts[0].code != OPT_END && |opts[0].body| <= 0xFF
    ensures Encode(opts) == [opts[0].code, |opts[0].body|] + opts[0].body + Encode(opts[1..])
  {
  }

  lemma PartsOfSlice(options: seq<byte>, at: nat, end: nat, code: byte, n: byte, body: seq<byte>, rest: seq<byte>)
    requires at <= end <= |options| && options[at..end] == [code, n] + body + rest && |body| == n
    ensures end == at + 2 + n + |rest| && options[at] == code && options[at + 1] == n
    ensures options[at + 2..at + 2 + n] == body && options[at + 2 + n..end] == rest
  {
    var stored := options[at..end];
    assert options[at] == stored[0] && options[at + 1] == stored[1];
    SliceOfSlice(options, at, end, 2, 2 + n);
    SliceOfSlice(options, at, end, 2 + n, |stored|);
  }

  /** Options with other codes are passed over, and nothing is found when fewer than three bytes follow. */
  lemma {:induction false} FindPassesOver(options: seq<byte>, size: nat, code: byte, at: nat, opts: seq<Opt>)
    requires Stored(options, at, opts) && at + |Encode(opts)| <= size <= |options|
    requires forall j :: 0 <= j < |opts| ==> opts[j].code != code
    ensures at + |Encode(opts)| + 2 < size ==>
              Find(options, size, code, at) == Find(options, size, code, at + |Encode(opts)|)
    ensures at + |Encode(opts)| + 2 >= size ==> Find(options, size, code, at) == None
    decreases |opts|
  {
    if opts != [] {
      StoredHead(options, at, opts);
      FindPassesOver(options, size, code, at + 2 + |opts[0].body|, opts[1..]);
    }
  }
}
