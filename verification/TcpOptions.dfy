/** tcp_parse_options and tcp_build_options (net/tcp.c; RFC 9293 section 3.2). */
module TcpOptions {
  import opened Bits
  import opened Checksum

  const END: byte := 0
  const NOP: byte := 1
  const MSS: byte := 2
  const WSCALE: byte := 3
  const SACK_PERM: byte := 4
  const TIMESTAMP: byte := 8
  const TCP_HEADER: nat := 20

  /** The part of tcp_config_t that options carry. */
  datatype Config = Config(mss: u16, windowScale: byte, sackPermitted: bool, timestamps: bool)

  /** A well-formed option: padding, or a kind with a body; the length byte counts both headers. */
  datatype TcpOption = Nop | Option(kind: byte, body: seq<byte>)

  predicate WellFormed(o: TcpOption) {
    o.Option? ==> o.kind > 1 && |o.body| <= 253
  }

  predicate AllFit(opts: seq<TcpOption>) {
    forall i | 0 <= i < |opts| :: WellFormed(opts[i])
  }

  function Encode(opts: seq<TcpOption>): (b: seq<byte>)
    requires AllFit(opts)
  {
    if opts == [] then [] else EncodeOne(opts[0]) + Encode(opts[1..])
  }

  function EncodeOne(o: TcpOption): (b: seq<byte>)
    requires WellFormed(o)
    ensures |b| > 0
  {
    if o.Nop? then [NOP] else [o.kind, 2 + |o.body|] + o.body
  }

  /** What one option sets; unknown kinds and unexpected lengths set nothing. */
  function Apply(c: Config, kind: byte, body: seq<byte>): Config {
    if kind == MSS && |body| == 2 then c.(mss := Word(body[0], body[1]))
    else if kind == WSCALE && |body| == 1 then c.(windowScale := body[0])
    else if kind == SACK_PERM && |body| == 0 then c.(sackPermitted := true)
    else if kind == TIMESTAMP && |body| == 8 then c.(timestamps := true)
    else c
  }

  function ApplyAll(c: Config, opts: seq<TcpOption>): Config
    decreases |opts|
  {
    if opts == [] then c
    else ApplyAll(if opts[0].Nop? then c else Apply(c, opts[0].kind, opts[0].body), opts[1..])
  }

  /** The result of the parser: its answer, and the configuration as it then is. */
  datatype Parsed = Parsed(ok: bool, config: Config)

  /** The parser on the bytes that are left. */
  function Parse(o: seq<byte>, c: Config): Parsed
    decreases |o|
  {
    if o == [] || o[0] == END then Parsed(true, c)
    else if o[0] == NOP then Parse(o[1..], c)
    else if |o| < 2 || o[1] < 2 || o[1] > |o| then Parsed(false, c)
    else Parse(o[o[1]..], Apply(c, o[0], o[2..o[1]]))
  }

  /** The bytes are a list of well-formed options, up to the end of the area or an END option,
      after which anything may follow. */
  ghost predicate Decodes(o: seq<byte>, opts: seq<TcpOption>) {
    && AllFit(opts)
    && Encode(opts) <= o
    && (|o| > |Encode(opts)| ==> o[|Encode(opts)|] == END)
  }

  /** On any list of well-formed options the parser succeeds and applies exactly them, in order. */
  lemma {:induction false} ParseDecoded(o: seq<byte>, opts: seq<TcpOption>, c: Config)
    requires Decodes(o, opts)
    ensures Parse(o, c) == Parsed(true, ApplyAll(c, opts))
    decreases |opts|
  {
    if opts != [] {
      var first, rest := EncodeOne(opts[0]), o[|EncodeOne(opts[0])|..];
      assert o == first + rest;
      RestDecodes(o, opts);
      if opts[0].Option? {
        assert o[1] == |first| && o[2..o[1]] == opts[0].body;
        ParseDecoded(rest, opts[1..], Apply(c, opts[0].kind, opts[0].body));
      } else {
        ParseDecoded(rest, opts[1..], c);
      }
    }
  }

  lemma {:induction false} RestDecodes(o: seq<byte>, opts: seq<TcpOption>)
    requires Decodes(o, opts) && opts != []
    ensures EncodeOne(opts[0]) <= o && Decodes(o[|EncodeOne(opts[0])|..], opts[1..])
  {
    hide WellFormed, EncodeOne;
    var e, r := EncodeOne(opts[0]), Encode(opts[1..]);
    assert Encode(opts) == e + r;
    PrefixOfConcat(o, e, r);
  }

  lemma {:induction false} PrefixOfConcat(o: seq<byte>, e: seq<byte>, r: seq<byte>)
    requires e + r <= o
    ensures e <= o && r <= o[|e|..]
  {
    assert o[..|e|] == (e + r)[..|e|];
    assert o[|e|..][..|r|] == o[|e|..|e| + |r|] == (e + r)[|e|..];
  }

  /** And it succeeds on nothing else. */
  lemma {:induction false} AcceptedDecodes(o: seq<byte>, c: Config) returns (opts: seq<TcpOption>)
    requires Parse(o, c).ok
    ensures Decodes(o, opts)
    decreases |o|
  {
    if o == [] || o[0] == END {
      opts := [];
    } else {
      var first := if o[0] == NOP then Nop else Option(o[0], o[2..o[1]]);
      var n := if o[0] == NOP then 1 else o[1];
      var rest := AcceptedDecodes(o[n..], if o[0] == NOP then c else Apply(c, o[0], o[2..o[1]]));
      opts := [first] + rest;
      ConsDecodes(o, first, rest);
    }
  }

  lemma {:induction false} ConsDecodes(o: seq<byte>, first: TcpOption, rest: seq<TcpOption>)
    requires WellFormed(first) && EncodeOne(first) <= o && Decodes(o[|EncodeOne(first)|..], rest)
    ensures Decodes(o, [first] + rest)
  {
    var opts, e := [first] + rest, EncodeOne(first);
    assert opts[1..] == rest;
    assert Encode(opts) == e + Encode(rest);
    assert o == e + o[|e|..];
  }

  /** The parser accepts exactly the areas that decode, whatever the configuration. */
  lemma {:induction false} AcceptsExactly(o: seq<byte>, c: Config)
    ensures Parse(o, c).ok <==> exists opts :: Decodes(o, opts)
  {
    if Parse(o, c).ok {
      var opts := AcceptedDecodes(o, c);
    } else if exists opts :: Decodes(o, opts) {
      var opts :| Decodes(o, opts);
      ParseDecoded(o, opts, c);
      assert false;
    }
  }

  // ---------------------------------------------------------------- building

  function Optional(b: bool, o: TcpOption): seq<TcpOption> {
    if b then [o] else []
  }

  function MssOption(c: Config): TcpOption { Option(MSS, [LowByte(c.mss), HighByte(c.mss)]) }

  function ScaleOption(c: Config): TcpOption { Option(WSCALE, [c.windowScale]) }

  function SackOption(): TcpOption { Option(SACK_PERM, []) }

  function TimeOption(): TcpOption { Option(TIMESTAMP, [0, 0, 0, 0, 0, 0, 0, 0]) }

  /** The options the builder writes, before padding. */
  function Written(c: Config): (opts: seq<TcpOption>)
    ensures AllFit(opts)
  {
    [MssOption(c)] + Optional(c.windowScale > 0, ScaleOption(c))
    + Optional(c.sackPermitted, SackOption()) + Optional(c.timestamps, TimeOption())
  }

  /** NOPs up to a multiple of four. */
  function Padding(n: nat): (p: seq<byte>)
    ensures (n + |p|) % 4 == 0 && |p| < 4 && forall i | 0 <= i < |p| :: p[i] == NOP
  {
    if n % 4 == 0 then [] else if n % 4 == 1 then [NOP, NOP, NOP] else if n % 4 == 2 then [NOP, NOP] else [NOP]
  }

  function Built(c: Config): seq<byte> {
    Encode(Written(c)) + Padding(|Encode(Written(c))|)
  }

  lemma {:induction false} EncodeConcat(a: seq<TcpOption>, b: seq<TcpOption>)
    requires AllFit(a)
    requires AllFit(b)
    ensures Encode(a + b) == Encode(a) + Encode(b)
  {
    if a == [] {
      assert a + b == b;
    } else {
      assert (a + b)[1..] == a[1..] + b;
      EncodeConcat(a[1..], b);
    }
  }

  lemma {:induction false} ApplyConcat(c: Config, a: seq<TcpOption>, b: seq<TcpOption>)
    ensures ApplyAll(c, a + b) == ApplyAll(ApplyAll(c, a), b)
    decreases |a|
  {
    if a == [] {
      assert a + b == b;
    } else {
      assert (a + b)[1..] == a[1..] + b;
      ApplyConcat(if a[0].Nop? then c else Apply(c, a[0].kind, a[0].body), a[1..], b);
    }
  }

  lemma {:induction false} ApplyOptional(c: Config, b: bool, o: TcpOption)
    requires o.Option?
    ensures ApplyAll(c, Optional(b, o)) == if b then Apply(c, o.kind, o.body) else c
  {
    assert b ==> Optional(b, o)[1..] == [];
  }

  function Nops(n: nat): (opts: seq<TcpOption>)
    ensures |opts| == n && AllFit(opts) && forall i | 0 <= i < n :: opts[i] == Nop
  {
    if n == 0 then [] else [Nop] + Nops(n - 1)
  }

  lemma {:induction false} NopsDoNothing(p: seq<byte>, c: Config)
    requires forall i | 0 <= i < |p| :: p[i] == NOP
    ensures Encode(Nops(|p|)) == p && ApplyAll(c, Nops(|p|)) == c
    decreases |p|
  {
    if p != [] {
      NopsDoNothing(p[1..], c);
      assert Nops(|p|)[1..] == Nops(|p| - 1);
    }
  }

  /** What parsing the built options makes of a configuration. */
  function Merged(c: Config, d: Config): Config {
    Config(c.mss, if c.windowScale > 0 then c.windowScale else d.windowScale,
           c.sackPermitted || d.sackPermitted, c.timestamps || d.timestamps)
  }

  lemma {:induction false} WrittenApply(c: Config, d: Config)
    ensures ApplyAll(d, Written(c)) == Merged(c, d)
  {
    hide ApplyAll, Optional;
    var mss := MssOption(c);
    var a, b := Optional(c.windowScale > 0, ScaleOption(c)), Optional(c.sackPermitted, SackOption());
    OptionalOne(mss);
    ApplyConcat(d, [mss] + a + b, Optional(c.timestamps, TimeOption()));
    ApplyConcat(d, [mss] + a, b);
    ApplyConcat(d, [mss], a);
    ApplyOptional(d, true, mss);
    var d1 := d.(mss := c.mss);
    assert Apply(d, MSS, mss.body) == d1;
    ApplyOptional(d1, c.windowScale > 0, ScaleOption(c));
    var d2 := if c.windowScale > 0 then d1.(windowScale := c.windowScale) else d1;
    ApplyOptional(d2, c.sackPermitted, SackOption());
    var d3 := if c.sackPermitted then d2.(sackPermitted := true) else d2;
    ApplyOptional(d3, c.timestamps, TimeOption());
  }

  lemma {:induction false} OptionalOne(o: TcpOption)
    ensures Optional(true, o) == [o]
  {}

  /** Parsing what was built: the four fields, over those the configuration held before. */
  lemma {:induction false} ParseBuilt(c: Config, d: Config)
    ensures Parse(Built(c), d) == Parsed(true, Merged(c, d))
  {
    hide Parse, Encode, Written, ApplyAll;
    var opts := Written(c);
    var p := Padding(|Encode(opts)|);
    var all := opts + Nops(|p|);
    EncodeConcat(opts, Nops(|p|));
    NopsDoNothing(p, ApplyAll(d, opts));
    ApplyConcat(d, opts, Nops(|p|));
    ParseDecoded(Built(c), all, d);
    WrittenApply(c, d);
  }

  /** The round trip recovers every configuration from a zeroed one, and from another one exactly
      when that one sets nothing the built configuration leaves unset. */
  lemma {:induction false} RoundTrip(c: Config, d: Config)
    ensures Parse(Built(c), Config(0, 0, false, false)) == Parsed(true, c)
    ensures Parse(Built(c), d) == Parsed(true, c) <==>
      (c.windowScale == 0 ==> d.windowScale == 0)
      && (d.sackPermitted ==> c.sackPermitted) && (d.timestamps ==> c.timestamps)
  {
    hide Parse, Built;
    ParseBuilt(c, Config(0, 0, false, false));
    ParseBuilt(c, d);
  }

  // ---------------------------------------------------------------- the two functions in place

  class Settings {
    var mss: u16
    var windowScale: byte
    var sackPermitted: bool
    var timestamps: bool

    constructor (c: Config)
      ensures View() == c
    {
      mss, windowScale, sackPermitted, timestamps := c.mss, c.windowScale, c.sackPermitted, c.timestamps;
    }

    function View(): Config
      reads this
    {
      Config(mss, windowScale, sackPermitted, timestamps)
    }

    /** The switch on the option kind. */
    method Set(kind: byte, body: seq<byte>)
      modifies this
      ensures View() == Apply(old(View()), kind, body)
    {
      if kind == MSS {
        if 2 + |body| == 4 {
          mss := Word(body[0], body[1]);
        }
      } else if kind == WSCALE {
        if 2 + |body| == 3 {
          windowScale := body[0];
        }
      } else if kind == SACK_PERM {
        if 2 + |body| == 2 {
          sackPermitted := true;
        }
      } else if kind == TIMESTAMP {
        if 2 + |body| == 10 {
          timestamps := true;
        }
      }
    }
  }

  lemma {:induction false} Sub(h: seq<byte>, a: nat, e: nat, i: nat, j: nat)
    requires i <= j <= e - a && e <= |h|
    ensures h[a..e][i..j] == h[a + i..a + j]
  {
    var s, t := h[a..e][i..j], h[a + i..a + j];
    forall k | 0 <= k < j - i
      ensures s[k] == t[k]
    {
      assert s[k] == h[a..e][i + k];
    }
  }

  /** tcp_parse_options on a header that is as long as its data offset, at least 5, says. */
  method ParseOptions(header: seq<byte>, settings: Settings) returns (ok: bool)
    requires |header| >= TCP_HEADER && TCP_HEADER <= header[12] / 16 * 4 <= |header|
    modifies settings
    ensures Parsed(ok, settings.View()) == Parse(header[20..header[12] / 16 * 4], old(settings.View()))
  {
    hide Shr, Apply;
    assert Pow2(4) == 16 by {
      Pow2Values();
    }
    ShrIsDiv(header[12], 4);
    var headerLen := Shr(header[12], 4) * 4;
    var optionsLen := headerLen - TCP_HEADER;
    var options := TCP_HEADER;
    ghost var end := headerLen;
    ghost var all := Parse(header[TCP_HEADER..end], settings.View());
    while optionsLen > 0
      invariant TCP_HEADER <= options <= end && options + optionsLen == end
      invariant all == Parse(header[options..end], settings.View())
      decreases optionsLen
    {
      ghost var left := header[options..end];
      assert left[0] == header[options] && (|left| > 1 ==> left[1] == header[options + 1]);
      var kind := header[options];
      if kind == END {
        return true;
      }
      if kind == NOP {
        Sub(header, options, end, 1, optionsLen);
        options := options + 1;
        optionsLen := optionsLen - 1;
        continue;
      }
      if optionsLen < 2 {
        return false;
      }
      var length := header[options + 1];
      if length < 2 || length > optionsLen {
        return false;
      }
      Sub(header, options, end, 2, length);
      Sub(header, options, end, length, optionsLen);
      settings.Set(kind, header[options + 2..options + length]);
      options := options + length;
      optionsLen := optionsLen - length;
    }
    return true;
  }

  /** Stores bytes at an offset. */
  method Put(options: array<byte>, offset: nat, bytes: seq<byte>)
    requires offset + |bytes| <= options.Length
    modifies options
    ensures options[..offset + |bytes|] == old(options[..offset]) + bytes
    ensures forall i | offset + |bytes| <= i < options.Length :: options[i] == old(options[i])
  {
    forall i | 0 <= i < |bytes| {
      options[offset + i] := bytes[i];
    }
  }

  /** The bytes of the written options, laid out. */
  function Layout(c: Config): seq<byte> {
    [MSS, 4, LowByte(c.mss), HighByte(c.mss)]
    + (if c.windowScale > 0 then [WSCALE, 3, c.windowScale] else [])
    + (if c.sackPermitted then [SACK_PERM, 2] else [])
    + (if c.timestamps then [TIMESTAMP, 10, 0, 0, 0, 0, 0, 0, 0, 0] else [])
  }

  /** The bytes of a built option area, by kind and length, padded with NOPs to a multiple of four. */
  lemma {:induction false} BuiltLayout(c: Config)
    ensures var body := [2, 4, c.mss % 0x100, c.mss / 0x100]
        + (if c.windowScale > 0 then [3, 3, c.windowScale] else [])
        + (if c.sackPermitted then [4, 2] else [])
        + (if c.timestamps then [8, 10, 0, 0, 0, 0, 0, 0, 0, 0] else []);
      && body <= Built(c) && |Built(c)| % 4 == 0 && |Built(c)| < |body| + 4
      && forall i | |body| <= i < |Built(c)| :: Built(c)[i] == 1
  {
    hide Encode, Written;
    EncodeWritten(c);
  }

  /** What the parser makes of each kind of option at the start of the bytes that are left. */
  lemma {:induction false} ParseKinds(o: seq<byte>, c: Config)
    ensures o == [] ==> Parse(o, c) == Parsed(true, c)
    ensures |o| >= 1 && o[0] == 0 ==> Parse(o, c) == Parsed(true, c)
    ensures |o| >= 1 && o[0] == 1 ==> Parse(o, c) == Parse(o[1..], c)
    ensures |o| == 1 && o[0] > 1 ==> Parse(o, c) == Parsed(false, c)
    ensures |o| >= 2 && o[0] > 1 && !(2 <= o[1] <= |o|) ==> Parse(o, c) == Parsed(false, c)
    ensures |o| >= 4 && o[0] == 2 && o[1] == 4 ==>
      Parse(o, c) == Parse(o[4..], c.(mss := Word(o[2], o[3])))
    ensures |o| >= 3 && o[0] == 3 && o[1] == 3 ==> Parse(o, c) == Parse(o[3..], c.(windowScale := o[2]))
    ensures |o| >= 2 && o[0] == 4 && o[1] == 2 ==> Parse(o, c) == Parse(o[2..], c.(sackPermitted := true))
    ensures |o| >= 10 && o[0] == 8 && o[1] == 10 ==> Parse(o, c) == Parse(o[10..], c.(timestamps := true))
    ensures |o| >= 2 && o[0] > 1 && 2 <= o[1] <= |o| && Odd(o[0], o[1]) ==> Parse(o, c) == Parse(o[o[1]..], c)
  {
    hide Word;
  }

  /** A kind the parser does not know, or a length that is not the one of its kind. */
  predicate Odd(kind: byte, length: byte) {
    && (kind == 2 ==> length != 4) && (kind == 3 ==> length != 3)
    && (kind == 4 ==> length != 2) && (kind == 8 ==> length != 10)
  }

  lemma {:induction false} EncodeOptional(b: bool, o: TcpOption)
    requires WellFormed(o)
    ensures AllFit(Optional(b, o))
    ensures Encode(Optional(b, o)) == Part(b, o)
  {
    assert b ==> Optional(b, o)[1..] == [];
  }

  lemma {:induction false} EncodeWritten(c: Config)
    ensures Encode(Written(c)) == Layout(c) && |Layout(c)| <= 19
  {
    EncodeParts(c);
    LayoutParts(c);
  }

  lemma {:induction false} EncodeParts(c: Config)
    ensures Encode(Written(c)) == Part(true, MssOption(c)) + Part(c.windowScale > 0, ScaleOption(c))
      + Part(c.sackPermitted, SackOption()) + Part(c.timestamps, TimeOption())
  {
    hide Encode, Optional, EncodeOne;
    OptionalOne(MssOption(c));
    EncodeOptional(true, MssOption(c));
    EncodeOptional(c.windowScale > 0, ScaleOption(c));
    EncodeOptional(c.sackPermitted, SackOption());
    EncodeOptional(c.timestamps, TimeOption());
    EncodeFour([MssOption(c)], Optional(c.windowScale > 0, ScaleOption(c)),
      Optional(c.sackPermitted, SackOption()), Optional(c.timestamps, TimeOption()));
  }

  function Part(b: bool, o: TcpOption): seq<byte>
    requires WellFormed(o)
  {
    if b then EncodeOne(o) else []
  }

  lemma {:induction false} LayoutParts(c: Config)
    ensures Layout(c) == Part(true, MssOption(c)) + Part(c.windowScale > 0, ScaleOption(c))
      + Part(c.sackPermitted, SackOption()) + Part(c.timestamps, TimeOption())
    ensures |Layout(c)| <= 19
  {
    assert EncodeOne(MssOption(c)) == [MSS, 4, LowByte(c.mss), HighByte(c.mss)];
    assert EncodeOne(ScaleOption(c)) == [WSCALE, 3, c.windowScale];
    assert EncodeOne(SackOption()) == [SACK_PERM, 2];
    assert EncodeOne(TimeOption()) == [TIMESTAMP, 10, 0, 0, 0, 0, 0, 0, 0, 0];
  }

  lemma {:induction false} EncodeFour(a: seq<TcpOption>, b: seq<TcpOption>, c: seq<TcpOption>, d: seq<TcpOption>)
    requires AllFit(a) && AllFit(b) && AllFit(c) && AllFit(d)
    ensures AllFit(a + b + c + d) && Encode(a + b + c + d) == Encode(a) + Encode(b) + Encode(c) + Encode(d)
  {
    hide Encode, WellFormed;
    EncodeConcat(a + b + c, d);
    EncodeConcat(a + b, c);
    EncodeConcat(a, b);
  }

  lemma {:induction false} LowTwoBits(n: nat)
    ensures And(n, 3) == n % 4
  {
    hide And;
    assert Pow2(2) == 4 by {
      Pow2Values();
    }
    AndIsLowBits(n, 2);
  }

  lemma {:induction false} OffsetNibble(n: nat)
    requires n < 16
    ensures Shl32(n, 4) == n * 16 && (n * 16) / 16 == n
  {
    assert Pow2(4) == 16 by {
      Pow2Values();
    }
    ShlIsMul(n, 4);
  }

  lemma {:induction false} PaddingNone(offset: nat)
    ensures offset % 4 == 0 ==> Padding(offset) == []
    ensures offset <= 20 ==> offset + |Padding(offset)| <= 20
  {}

  /** The padding still due when `offset` bytes of options have been written. */
  lemma {:induction false} PaddingStep(offset: nat)
    requires offset % 4 != 0
    ensures Padding(offset) == [NOP] + Padding(offset + 1)
  {}

  /** tcp_build_options: the options area and the data offset that announces it. */
  method BuildOptions(options: array<byte>, c: Config) returns (dataOffset: byte)
    requires options.Length >= 20
    modifies options
    ensures |Built(c)| <= 20 && options[..|Built(c)|] == Built(c)
    ensures forall i | 20 <= i < options.Length :: options[i] == old(options[i])
    ensures dataOffset / 16 * 4 == 20 + |Built(c)|
  {
    hide Encode, Written, And, Shl32, Padding, Layout;
    EncodeWritten(c);
    var offset := WriteOptions(options, c);
    offset := Pad(options, offset);
    OffsetNibble((TCP_HEADER + offset) / 4);
    dataOffset := Shl32((TCP_HEADER + offset) / 4, 4);
  }

  /** The options in their fixed order. */
  method WriteOptions(options: array<byte>, c: Config) returns (offset: nat)
    requires options.Length >= 20
    modifies options
    ensures offset == |Layout(c)| <= 19 && options[..offset] == Layout(c)
    ensures forall i | 20 <= i < options.Length :: options[i] == old(options[i])
  {
    offset := PutIf(options, 0, true, [MSS, 4, LowByte(c.mss), HighByte(c.mss)]);
    offset := PutIf(options, offset, c.windowScale > 0, [WSCALE, 3, c.windowScale]);
    offset := PutIf(options, offset, c.sackPermitted, [SACK_PERM, 2]);
    offset := PutIf(options, offset, c.timestamps, [TIMESTAMP, 10, 0, 0, 0, 0, 0, 0, 0, 0]);
  }

  /** One option, if the configuration asks for it. */
  method PutIf(options: array<byte>, offset: nat, wanted: bool, bytes: seq<byte>) returns (next: nat)
    requires offset + |bytes| <= 20 <= options.Length
    modifies options
    ensures next == offset + (if wanted then |bytes| else 0)
    ensures options[..next] == old(options[..offset]) + (if wanted then bytes else [])
    ensures forall i | 20 <= i < options.Length :: options[i] == old(options[i])
  {
    next := offset;
    if wanted {
      Put(options, offset, bytes);
      next := offset + |bytes|;
    }
  }

  /** The padding loop. */
  method Pad(options: array<byte>, start: nat) returns (offset: nat)
    requires start <= 20 <= options.Length
    modifies options
    ensures offset == start + |Padding(start)| <= 20 && options[..offset] == old(options[..start]) + Padding(start)
    ensures forall i | 20 <= i < options.Length :: options[i] == old(options[i])
  {
    hide And, Padding;
    offset := start;
    LowTwoBits(offset);
    PaddingNone(start);
    while And(offset, 3) != 0
      invariant start <= offset <= 20 && And(offset, 3) == offset % 4
      invariant options[..offset] + Padding(offset) == old(options[..start]) + Padding(start)
      invariant forall i | 20 <= i < options.Length :: options[i] == old(options[i])
      decreases 20 - offset
    {
      PaddingStep(offset);
      Put(options, offset, [NOP]);
      offset := offset + 1;
      LowTwoBits(offset);
      PaddingNone(offset);
    }
  }
}
