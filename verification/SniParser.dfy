/**
 * The parser that reads the server name out of a TLS ClientHello
 * (section 4.1.2 of RFC 8446, section 3 of RFC 6066).
 *
 * `Sni` says what the parser answers, as a recursion along the message; `SniNewParser` is
 * the looping cursor program and is proved to answer just that.
 * What makes the answer right is proved about `Sni`: it inverts a ClientHello builder
 * and it is stable under truncation and extension of the received bytes.
 */
module SniParser {
  import opened Wire

  /** The access protocols an audit record distinguishes. */
  datatype Proto = Udp | Tcp | Https | Http | Dns | Ssh | Ftp | Smtp | Imap | Pop3

  /** What a payload parser answers: a protocol and a host name, the latter possibly empty. */
  datatype Verdict = Verdict(proto: Proto, info: Bytes)

  const PLAIN_TCP := Verdict(Tcp, [])

  // ----- host names

  predicate DomainChar(c: byte) {
    97 <= c <= 122 || 65 <= c <= 90 || 45 <= c <= 46 || 48 <= c <= 57
  }

  ghost predicate ValidDomain(host: Bytes) {
    forall i :: 0 <= i < |host| ==> DomainChar(host[i])
  }

  method ValidDomainChar(addr: Bytes) returns (ok: bool)
    ensures ok <==> ValidDomain(addr)
  {
    for i := 0 to |addr|
      invariant forall j :: 0 <= j < i ==> DomainChar(addr[j])
    {
      if !DomainChar(addr[i]) {
        return false;
      }
    }
    return true;
  }

  // ----- what the parser answers

  /** The verdict for a message whose server name is `host`: a malformed name is dropped. */
  ghost function Named(host: Bytes): Verdict {
    Verdict(Https, if ValidDomain(host) then host else [])
  }

  /** The cursor after a vector with a one-octet length, if the vector fits. */
  function Skip8(body: Bytes, off: nat): (r: Option<nat>)
    ensures r.Some? ==> off < r.value <= |body|
  {
    if off + 1 > |body| || off + 1 + body[off] as nat > |body| then None
    else Some(off + 1 + body[off] as nat)
  }

  /** The cursor after a vector with a two-octet length, if the vector fits. */
  function Skip16(body: Bytes, off: nat): (r: Option<nat>)
    ensures r.Some? ==> off + 2 <= r.value <= |body|
  {
    if off + 2 > |body| || off + 2 + Be16(body[off], body[off + 1]) > |body| then None
    else Some(off + 2 + Be16(body[off], body[off + 1]))
  }

  /** The verdict of the ServerNameList between two cursors, or None when it holds no host_name entry. */
  ghost function Names(body: Bytes, off: nat, end: nat): Option<Verdict>
    requires off <= end <= |body|
    decreases end - off
  {
    if off == end then None
    else if off + 3 > end then Some(PLAIN_TCP)
    else
      var n := Be16(body[off + 1], body[off + 2]);
      if off + 3 + n > end then Some(PLAIN_TCP)
      else if body[off] == 0 then Some(Named(body[off + 3..off + 3 + n]))
      else Names(body, off + 3 + n, end)
  }

  /**
   * The verdict of the extensions between two cursors. After a server_name extension without
   * a host_name entry the parser goes on where the name list ends, not where the extension ends.
   */
  ghost function Extensions(body: Bytes, off: nat, end: nat): Verdict
    requires off <= end <= |body|
    decreases end - off
  {
    if off == end then Verdict(Https, [])
    else if off + 4 > end then PLAIN_TCP
    else
      var etype, elen := Be16(body[off], body[off + 1]), Be16(body[off + 2], body[off + 3]);
      if off + 4 + elen > end then PLAIN_TCP
      else if etype != 0 then Extensions(body, off + 4 + elen, end)
      else if elen < 2 then PLAIN_TCP
      else
        var listLen := Be16(body[off + 4], body[off + 5]);
        if 2 + listLen > elen then PLAIN_TCP
        else
          match Names(body, off + 6, off + 6 + listLen)
          case Some(v) => v
          case None => Extensions(body, off + 6 + listLen, end)
  }

  /** The verdict of a ClientHello body. */
  ghost function Hello(body: Bytes): Verdict {
    if |body| < 35 then PLAIN_TCP
    else
      match Skip8(body, 34)
      case None => PLAIN_TCP
      case Some(ciphers) =>
        match Skip16(body, ciphers)
        case None => PLAIN_TCP
        case Some(compression) =>
          match Skip8(body, compression)
          case None => PLAIN_TCP
          case Some(exts) =>
            match Skip16(body, exts)
            case None => PLAIN_TCP
            case Some(end) => Extensions(body, exts + 2, end)
  }

  /** Whether a whole TLS record with a whole ClientHello is at the front of `b`. */
  predicate HelloArrived(b: Bytes) {
    && |b| >= 9 && b[0] == 0x16 && b[1] == 0x03
    && 4 <= Be16(b[3], b[4]) && 5 + Be16(b[3], b[4]) <= |b|
    && b[5] == 0x01
    && Be24(b[6], b[7], b[8]) + 4 <= Be16(b[3], b[4])
  }

  ghost function Sni(b: Bytes): Verdict {
    if HelloArrived(b) then Hello(b[9..9 + Be24(b[6], b[7], b[8])]) else PLAIN_TCP
  }

  // ----- the cursor program

  /** Walks the name list between two cursors; None when no entry settles the verdict. */
  method WalkNames(body: Bytes, from: nat, nameEnd: nat) returns (v: Option<Verdict>)
    requires from <= nameEnd <= |body|
    ensures v == Names(body, from, nameEnd)
  {
    var off := from;
    while off < nameEnd
      invariant off <= nameEnd
      invariant Names(body, from, nameEnd) == Names(body, off, nameEnd)
    {
      if off + 3 > nameEnd {
        return Some(PLAIN_TCP);
      }
      var nt := body[off];
      off := off + 1;
      var nl := Be16(body[off], body[off + 1]);
      off := off + 2;
      if off + nl > nameEnd {
        return Some(PLAIN_TCP);
      }
      if nt == 0 {
        var host := body[off..off + nl];
        var valid := ValidDomainChar(host);
        if host != [] && valid {
          return Some(Verdict(Https, host));
        }
        return Some(Verdict(Https, []));
      }
      off := off + nl;
    }
    return None;
  }

  method WalkExtensions(body: Bytes, from: nat, extEnd: nat) returns (v: Verdict)
    requires from <= extEnd <= |body|
    ensures v == Extensions(body, from, extEnd)
  {
    var off := from;
    while off < extEnd
      invariant off <= extEnd
      invariant Extensions(body, from, extEnd) == Extensions(body, off, extEnd)
    {
      if off + 4 > extEnd {
        return PLAIN_TCP;
      }
      var etype := Be16(body[off], body[off + 1]);
      off := off + 2;
      var elen := Be16(body[off], body[off + 1]);
      off := off + 2;
      if off + elen > extEnd {
        return PLAIN_TCP;
      }
      if etype == 0 {
        var listEnd := off + elen;
        if off + 2 > listEnd {
          return PLAIN_TCP;
        }
        var listLen := Be16(body[off], body[off + 1]);
        off := off + 2;
        if off + listLen > listEnd {
          return PLAIN_TCP;
        }
        var nameEnd := off + listLen;
        var found := WalkNames(body, off, nameEnd);
        if found.Some? {
          return found.value;
        }
        off := nameEnd;
      } else {
        off := off + elen;
      }
    }
    return Verdict(Https, []);
  }

  /** Skips version, random, session id, cipher suites and compression methods, then walks the extensions. */
  method WalkHello(body: Bytes) returns (v: Verdict)
    ensures v == Hello(body)
  {
    var off := 2 + 32;
    if off + 1 > |body| {
      return PLAIN_TCP;
    }
    var sidLen := body[off] as nat;
    off := off + 1;
    if off + sidLen > |body| {
      return PLAIN_TCP;
    }
    off := off + sidLen;
    if off + 2 > |body| {
      return PLAIN_TCP;
    }
    var csl := Be16(body[off], body[off + 1]);
    off := off + 2;
    if off + csl > |body| {
      return PLAIN_TCP;
    }
    off := off + csl;
    if off + 1 > |body| {
      return PLAIN_TCP;
    }
    var cml := body[off] as nat;
    off := off + 1;
    if off + cml > |body| {
      return PLAIN_TCP;
    }
    off := off + cml;
    if off + 2 > |body| {
      return PLAIN_TCP;
    }
    var extTotal := Be16(body[off], body[off + 1]);
    off := off + 2;
    if off + extTotal > |body| {
      return PLAIN_TCP;
    }
    v := WalkExtensions(body, off, off + extTotal);
  }

  method SniNewParser(b: Bytes) returns (v: Verdict)
    ensures v == Sni(b)
  {
    if |b| < 5 || b[0] != 0x16 || b[1] != 0x03 {
      return PLAIN_TCP;
    }
    var recordLen := Be16(b[3], b[4]);
    if recordLen < 4 || |b| < 5 + recordLen || |b| < 9 {
      return PLAIN_TCP;
    }
    if b[5] != 0x01 {
      return PLAIN_TCP;
    }
    var hsLen := Be24(b[6], b[7], b[8]);
    if hsLen > recordLen - 4 || hsLen > |b| - 9 {
      return PLAIN_TCP;
    }
    v := WalkHello(b[9..9 + hsLen]);
  }

  // ----- a ClientHello builder

  datatype Extension = Extension(etype: uint16, data: Bytes)
  datatype Name = Name(kind: byte, data: Bytes)

  /** The parts of a ClientHello that names a host. */
  datatype ClientHello = ClientHello(
    minor: byte,              // minor version of the record layer
    version: Bytes,           // legacy version and random, 34 octets
    sessionId: Bytes,
    ciphers: Bytes,
    compression: Bytes,
    before: seq<Extension>,   // extensions before server_name
    named: bool,              // whether there is a server_name extension
    otherNames: seq<Name>,    // entries before the host_name
    host: Bytes,
    afterNames: Bytes,        // anything after the host_name entry, in its extension
    after: Bytes              // anything after the server_name extension
  )

  function Vector8(v: Bytes): (s: Bytes)
    requires |v| < 0x100
    ensures |s| == 1 + |v|
  {
    [|v| as byte] + v
  }

  function Vector16(v: Bytes): (s: Bytes)
    requires |v| < 0x1_0000
    ensures |s| == 2 + |v|
  {
    Put16(|v|) + v
  }

  function ExtensionHeader(etype: uint16, n: uint16): Bytes {
    Put16(etype) + Put16(n)
  }

  function NameEntry(kind: byte, data: Bytes): Bytes
    requires |data| < 0x1_0000
  {
    [kind] + Put16(|data|) + data
  }

  function ExtensionBytes(es: seq<Extension>): Bytes
    requires forall e <- es :: |e.data| < 0x1_0000
  {
    if es == [] then []
    else ExtensionHeader(es[0].etype, |es[0].data|) + (es[0].data + ExtensionBytes(es[1..]))
  }

  function NameBytes(ns: seq<Name>): Bytes
    requires forall n <- ns :: |n.data| < 0x1_0000
  {
    if ns == [] then []
    else NameEntry(ns[0].kind, ns[0].data) + NameBytes(ns[1..])
  }

  function NameList(h: ClientHello): Bytes
    requires forall n <- h.otherNames :: |n.data| < 0x1_0000
    requires |h.host| < 0x1_0000
  {
    NameBytes(h.otherNames) + (NameEntry(0, h.host) + h.afterNames)
  }

  /** The host name a ClientHello is reported with. */
  function HostName(h: ClientHello): Bytes {
    if h.named && forall c <- h.host :: 'a' as byte <= c <= 'z' as byte || 'A' as byte <= c <= 'Z' as byte
                                        || '0' as byte <= c <= '9' as byte || c == '.' as byte || c == '-' as byte
    then h.host else []
  }

  /** Every part fits its length field. */
  ghost predicate PartsFit(h: ClientHello) {
    && |h.version| == 34
    && |h.sessionId| < 0x100 && |h.ciphers| < 0x1_0000 && |h.compression| < 0x100
    && (forall e <- h.before :: e.etype != 0 && |e.data| < 0x1_0000)
    && (forall n <- h.otherNames :: n.kind != 0 && |n.data| < 0x1_0000)
    && |h.host| < 0x1_0000
    && |NameList(h)| + 2 < 0x1_0000
    && |AllExtensions(h)| < 0x1_0000
  }

  ghost predicate Encodable(h: ClientHello) {
    PartsFit(h) && |HelloBody(h)| + 4 < 0x1_0000
  }

  function ServerName(list: Bytes): Bytes
    requires |list| + 2 < 0x1_0000
  {
    ExtensionHeader(0, |list| + 2) + (Put16(|list|) + list)
  }

  function AllExtensions(h: ClientHello): Bytes
    requires forall e <- h.before :: |e.data| < 0x1_0000
    requires forall n <- h.otherNames :: |n.data| < 0x1_0000
    requires |h.host| < 0x1_0000 && |NameList(h)| + 2 < 0x1_0000
  {
    ExtensionBytes(h.before) + (if h.named then ServerName(NameList(h)) + h.after else [])
  }

  function FromCompression(h: ClientHello): Bytes
    requires PartsFit(h)
  {
    Vector8(h.compression) + Vector16(AllExtensions(h))
  }

  function FromCiphers(h: ClientHello): Bytes
    requires PartsFit(h)
  {
    Vector16(h.ciphers) + FromCompression(h)
  }

  function FromSessionId(h: ClientHello): Bytes
    requires PartsFit(h)
  {
    Vector8(h.sessionId) + FromCiphers(h)
  }

  function HelloBody(h: ClientHello): Bytes
    requires PartsFit(h)
  {
    h.version + FromSessionId(h)
  }

  /** The TLS record that carries the ClientHello `h`. */
  function Record(h: ClientHello): Bytes
    requires Encodable(h)
  {
    var body := HelloBody(h);
    [0x16, 0x03, h.minor] + Put16(|body| + 4) + [0x01] + Put24(|body|) + body
  }

  // ----- the parser inverts the builder

  /** The octets at `off` are `part`. */
  ghost predicate At(body: Bytes, off: nat, part: Bytes) {
    && off + |part| <= |body|
    && forall i :: 0 <= i < |part| ==> part[i] == body[off + i]
  }

  lemma {:induction false} AtSplit(body: Bytes, off: nat, p: Bytes, q: Bytes)
    requires At(body, off, p + q)
    ensures At(body, off, p) && At(body, off + |p|, q)
  {
    assert forall i :: 0 <= i < |p| ==> p[i] == (p + q)[i];
    assert forall i :: 0 <= i < |q| ==> q[i] == (p + q)[|p| + i];
  }

  lemma {:induction false} AtSlice(body: Bytes, off: nat, p: Bytes)
    requires At(body, off, p)
    ensures body[off..off + |p|] == p
  {
  }

  lemma {:induction false} AtIndex(body: Bytes, off: nat, p: Bytes, i: nat)
    requires At(body, off, p) && i < |p|
    ensures body[off + i] == p[i]
  {
  }

  lemma {:induction false} At16(body: Bytes, off: nat, n: uint16)
    requires At(body, off, Put16(n))
    ensures Be16(body[off], body[off + 1]) == n
  {
  }

  lemma {:induction false} NameEntryAt(body: Bytes, off: nat, kind: byte, data: Bytes, rest: Bytes)
    requires |data| < 0x1_0000 && At(body, off, NameEntry(kind, data) + rest)
    ensures body[off] == kind && Be16(body[off + 1], body[off + 2]) == |data|
    ensures At(body, off + 3, data) && At(body, off + 3 + |data|, rest)
  {
    AtSplit(body, off, NameEntry(kind, data), rest);
    AtSplit(body, off, [kind] + Put16(|data|), data);
    AtSplit(body, off, [kind], Put16(|data|));
    AtIndex(body, off, [kind], 0);
    At16(body, off + 1, |data|);
  }

  lemma {:induction false} ExtensionHeaderAt(body: Bytes, off: nat, etype: uint16, n: uint16, rest: Bytes)
    requires At(body, off, ExtensionHeader(etype, n) + rest)
    ensures Be16(body[off], body[off + 1]) == etype && Be16(body[off + 2], body[off + 3]) == n
    ensures At(body, off + 4, rest)
  {
    AtSplit(body, off, ExtensionHeader(etype, n), rest);
    AtSplit(body, off, Put16(etype), Put16(n));
    At16(body, off, etype);
    At16(body, off + 2, n);
  }

  lemma {:induction false} NamesSkipsOthers(body: Bytes, off: nat, end: nat, ns: seq<Name>)
    requires forall n <- ns :: n.kind != 0 && |n.data| < 0x1_0000
    requires At(body, off, NameBytes(ns)) && off + |NameBytes(ns)| <= end <= |body|
    ensures Names(body, off, end) == Names(body, off + |NameBytes(ns)|, end)
    decreases |ns|
  {
    if ns != [] {
      NameEntryAt(body, off, ns[0].kind, ns[0].data, NameBytes(ns[1..]));
      NamesSkipsOthers(body, off + 3 + |ns[0].data|, end, ns[1..]);
    }
  }

  lemma {:induction false} HostEntryAnswers(body: Bytes, off: nat, end: nat, host: Bytes, rest: Bytes)
    requires |host| < 0x1_0000 && At(body, off, NameEntry(0, host) + rest)
    requires off + 3 + |host| <= end <= |body|
    ensures Names(body, off, end) == Some(Named(host))
  {
    NameEntryAt(body, off, 0, host, rest);
    AtSlice(body, off + 3, host);
    var n := Be16(body[off + 1], body[off + 2]);
    assert n == |host| && body[off] == 0 && body[off + 3..off + 3 + n] == host;
  }

  lemma {:induction false} NamesFindHost(body: Bytes, off: nat, end: nat, h: ClientHello)
    requires forall n <- h.otherNames :: n.kind != 0 && |n.data| < 0x1_0000
    requires |h.host| < 0x1_0000 && At(body, off, NameList(h)) && end == off + |NameList(h)|
    ensures Names(body, off, end) == Some(Named(h.host))
  {
    var others := NameBytes(h.otherNames);
    AtSplit(body, off, others, NameEntry(0, h.host) + h.afterNames);
    NamesSkipsOthers(body, off, end, h.otherNames);
    HostEntryAnswers(body, off + |others|, end, h.host, h.afterNames);
  }

  lemma {:induction false} ExtensionsSkipOthers(body: Bytes, off: nat, end: nat, es: seq<Extension>)
    requires forall e <- es :: e.etype != 0 && |e.data| < 0x1_0000
    requires At(body, off, ExtensionBytes(es)) && off + |ExtensionBytes(es)| <= end <= |body|
    ensures Extensions(body, off, end) == Extensions(body, off + |ExtensionBytes(es)|, end)
    decreases |es|
  {
    if es != [] {
      ExtensionHeaderAt(body, off, es[0].etype, |es[0].data|, es[0].data + ExtensionBytes(es[1..]));
      AtSplit(body, off + 4, es[0].data, ExtensionBytes(es[1..]));
      ExtensionsSkipOthers(body, off + 4 + |es[0].data|, end, es[1..]);
    }
  }

  lemma {:induction false} ExtensionsFindHost(body: Bytes, off: nat, end: nat, h: ClientHello)
    requires Encodable(h) && At(body, off, AllExtensions(h)) && end == off + |AllExtensions(h)|
    ensures Extensions(body, off, end) == Verdict(Https, HostName(h))
  {
    var before, name := ExtensionBytes(h.before), if h.named then ServerName(NameList(h)) + h.after else [];
    AtSplit(body, off, before, name);
    ExtensionsSkipOthers(body, off, end, h.before);
    if h.named {
      ServerNameAnswers(body, off + |before|, end, h);
    }
  }

  /** An extension that is cut short, or announces more than there is, makes the whole plain TCP. */
  lemma {:induction false} CutExtensionIsPlain(body: Bytes, off: nat, end: nat, es: seq<Extension>)
    requires forall e <- es :: e.etype != 0 && |e.data| < 0x1_0000
    requires At(body, off, ExtensionBytes(es)) && off + |ExtensionBytes(es)| < end <= |body|
    requires var next := off + |ExtensionBytes(es)|;
             next + 4 > end || next + 4 + Be16(body[next + 2], body[next + 3]) > end
    ensures Extensions(body, off, end) == PLAIN_TCP
  {
    ExtensionsSkipOthers(body, off, end, es);
  }

  /** A server_name extension without a host_name entry is passed over, up to the end of its list. */
  lemma {:induction false} NamelessListIsSkipped(body: Bytes, off: nat, end: nat, ns: seq<Name>)
    requires forall n <- ns :: n.kind != 0 && |n.data| < 0x1_0000
    requires |NameBytes(ns)| + 2 < 0x1_0000 && At(body, off, ServerName(NameBytes(ns)))
    requires off + |ServerName(NameBytes(ns))| <= end <= |body|
    ensures Extensions(body, off, end) == Extensions(body, off + |ServerName(NameBytes(ns))|, end)
  {
    var list := NameBytes(ns);
    ServerNameAt(body, off, list);
    NamesSkipsOthers(body, off + 6, off + 6 + |list|, ns);
    NamelessStep(body, off, end, |list|);
  }

  lemma {:induction false} NamelessStep(body: Bytes, off: nat, end: nat, n: nat)
    requires off + 6 + n <= end <= |body|
    requires Be16(body[off], body[off + 1]) == 0 && Be16(body[off + 2], body[off + 3]) == n + 2
    requires Be16(body[off + 4], body[off + 5]) == n && Names(body, off + 6, off + 6 + n).None?
    ensures Extensions(body, off, end) == Extensions(body, off + 6 + n, end)
  {
  }

  lemma {:induction false} ServerNameAnswers(body: Bytes, off: nat, end: nat, h: ClientHello)
    requires Encodable(h) && h.named && At(body, off, ServerName(NameList(h)) + h.after)
    requires off + |ServerName(NameList(h))| <= end <= |body|
    ensures Extensions(body, off, end) == Verdict(Https, HostName(h))
  {
    var list := NameList(h);
    AtSplit(body, off, ServerName(list), h.after);
    ServerNameAt(body, off, list);
    NamesFindHost(body, off + 6, off + 6 + |list|, h);
    NamedByFirst(body, off, end, |list|, Named(h.host));
    NamedIs(h);
  }

  lemma {:induction false} ServerNameAt(body: Bytes, off: nat, list: Bytes)
    requires |list| + 2 < 0x1_0000 && At(body, off, ServerName(list))
    ensures Be16(body[off], body[off + 1]) == 0 && Be16(body[off + 2], body[off + 3]) == |list| + 2
    ensures Be16(body[off + 4], body[off + 5]) == |list| && At(body, off + 6, list)
  {
    ExtensionHeaderAt(body, off, 0, |list| + 2, Put16(|list|) + list);
    LengthThenList(body, off + 4, list);
  }

  lemma {:induction false} LengthThenList(body: Bytes, off: nat, list: Bytes)
    requires |list| < 0x1_0000 && At(body, off, Put16(|list|) + list)
    ensures Be16(body[off], body[off + 1]) == |list| && At(body, off + 2, list)
  {
    AtSplit(body, off, Put16(|list|), list);
    At16(body, off, |list|);
  }

  lemma {:induction false} NamedIs(h: ClientHello)
    requires h.named
    ensures Named(h.host) == Verdict(Https, HostName(h))
  {
    forall i | 0 <= i < |h.host|
      ensures h.host[i] in h.host
    {
    }
    if ValidDomain(h.host) {
      forall c | c in h.host
        ensures 'a' as byte <= c <= 'z' as byte || 'A' as byte <= c <= 'Z' as byte
                || '0' as byte <= c <= '9' as byte || c == '.' as byte || c == '-' as byte
      {
        var i :| 0 <= i < |h.host| && h.host[i] == c;
      }
    }
  }

  /** One step of the recursion, at a server_name extension with a host_name entry. */
  lemma {:induction false} NamedByFirst(body: Bytes, off: nat, end: nat, n: nat, v: Verdict)
    requires off + 6 + n <= end <= |body|
    requires Be16(body[off], body[off + 1]) == 0 && Be16(body[off + 2], body[off + 3]) == n + 2
    requires Be16(body[off + 4], body[off + 5]) == n && Names(body, off + 6, off + 6 + n) == Some(v)
    ensures Extensions(body, off, end) == v
  {
  }

  lemma {:induction false} SkipsVector8(body: Bytes, off: nat, v: Bytes, rest: Bytes)
    requires |v| < 0x100 && At(body, off, Vector8(v) + rest)
    ensures Skip8(body, off) == Some(off + 1 + |v|) && At(body, off + 1 + |v|, rest)
  {
    AtSplit(body, off, Vector8(v), rest);
    AtSplit(body, off, [|v| as byte], v);
    AtIndex(body, off, [|v| as byte], 0);
  }

  lemma {:induction false} SkipsVector16(body: Bytes, off: nat, v: Bytes)
    requires |v| < 0x1_0000 && At(body, off, Vector16(v))
    ensures Skip16(body, off) == Some(off + 2 + |v|) && At(body, off + 2, v)
  {
    AtSplit(body, off, Put16(|v|), v);
    At16(body, off, |v|);
  }

  lemma {:induction false} SkipsSessionId(body: Bytes, h: ClientHello)
    requires Encodable(h) && At(body, 34, FromSessionId(h))
    ensures Skip8(body, 34) == Some(35 + |h.sessionId|)
    ensures At(body, 35 + |h.sessionId|, FromCiphers(h))
  {
    SkipsVector8(body, 34, h.sessionId, FromCiphers(h));
  }

  lemma {:induction false} SkipsCiphers(body: Bytes, off: nat, h: ClientHello)
    requires Encodable(h) && At(body, off, FromCiphers(h))
    ensures Skip16(body, off) == Some(off + 2 + |h.ciphers|)
    ensures At(body, off + 2 + |h.ciphers|, FromCompression(h))
  {
    AtSplit(body, off, Vector16(h.ciphers), FromCompression(h));
    SkipsVector16(body, off, h.ciphers);
  }

  lemma {:induction false} SkipsCompression(body: Bytes, off: nat, h: ClientHello)
    requires Encodable(h) && At(body, off, FromCompression(h))
    ensures Skip8(body, off) == Some(off + 1 + |h.compression|)
    ensures At(body, off + 1 + |h.compression|, Vector16(AllExtensions(h)))
  {
    SkipsVector8(body, off, h.compression, Vector16(AllExtensions(h)));
  }

  lemma {:induction false} HelloSteps(body: Bytes, ciphers: nat, compression: nat, exts: nat, end: nat)
    requires |body| >= 35
    requires Skip8(body, 34) == Some(ciphers) && Skip16(body, ciphers) == Some(compression)
    requires Skip8(body, compression) == Some(exts) && Skip16(body, exts) == Some(end)
    ensures Hello(body) == Extensions(body, exts + 2, end)
  {
  }

  /** Where the extension list of a built body starts. */
  function ExtensionsStart(h: ClientHello): nat {
    40 + |h.sessionId| + |h.ciphers| + |h.compression|
  }

  lemma {:induction false} HelloReachesExtensions(body: Bytes, h: ClientHello)
    requires Encodable(h) && At(body, 34, FromSessionId(h))
    ensures At(body, ExtensionsStart(h), AllExtensions(h))
    ensures Hello(body) == Extensions(body, ExtensionsStart(h), ExtensionsStart(h) + |AllExtensions(h)|)
  {
    var ciphers := 35 + |h.sessionId|;
    var compression := ciphers + 2 + |h.ciphers|;
    var off := compression + 1 + |h.compression|;
    SkipsSessionId(body, h);
    SkipsCiphers(body, ciphers, h);
    SkipsCompression(body, compression, h);
    SkipsVector16(body, off, AllExtensions(h));
    HelloSteps(body, ciphers, compression, off, off + 2 + |AllExtensions(h)|);
  }

  lemma {:induction false} BuiltHelloNamesHost(body: Bytes, h: ClientHello)
    requires Encodable(h) && At(body, 34, FromSessionId(h))
    ensures Hello(body) == Verdict(Https, HostName(h))
  {
    var start := ExtensionsStart(h);
    HelloReachesExtensions(body, h);
    ExtensionsFindHost(body, start, start + |AllExtensions(h)|, h);
  }

  lemma {:induction false} HelloInvertsBuilder(h: ClientHello)
    requires Encodable(h)
    ensures Hello(HelloBody(h)) == Verdict(Https, HostName(h))
  {
    var rest := FromSessionId(h);
    assert forall i :: 0 <= i < |rest| ==> rest[i] == (h.version + rest)[34 + i];
    BuiltHelloNamesHost(HelloBody(h), h);
  }

  /** The record's header announces exactly the body that follows it. */
  lemma {:induction false} RecordArrives(h: ClientHello, trailing: Bytes)
    requires Encodable(h)
    ensures var b := Record(h) + trailing;
            && HelloArrived(b)
            && RecordSize(b) == |Record(h)|
            && b[9..9 + Be24(b[6], b[7], b[8])] == HelloBody(h)
  {
  }

  /**
   * The parser returns the host name that the ClientHello was built with, or none if it has none or one with
   * other characters, whatever follows the record.
   */
  lemma {:induction false} SniInvertsBuilder(h: ClientHello, trailing: Bytes)
    requires Encodable(h)
    ensures Sni(Record(h) + trailing) == Verdict(Https, HostName(h))
  {
    RecordArrives(h, trailing);
    HelloInvertsBuilder(h);
  }

  // ----- the answer is stable while bytes arrive

  /** The number of bytes of the TLS record at the front of `b`. */
  function RecordSize(b: Bytes): nat
    requires |b| >= 5
  {
    5 + Be16(b[3], b[4])
  }

  /** Nothing but plain TCP is reported before the last byte of the record is there... */
  lemma {:induction false} StrictPrefixIsPlain(b: Bytes, n: nat)
    requires HelloArrived(b) && n < RecordSize(b)
    ensures n <= |b| && Sni(b[..n]) == PLAIN_TCP
  {
  }

  /** ...and once it is, no further byte changes the answer. */
  lemma {:induction false} LaterBytesIgnored(b: Bytes, more: Bytes)
    requires HelloArrived(b)
    ensures Sni(b + more) == Sni(b)
    ensures Sni(b) == Sni(b[..RecordSize(b)])
  {
    var n := Be24(b[6], b[7], b[8]);
    assert (b + more)[9..9 + n] == b[9..9 + n];
    assert b[..RecordSize(b)][9..9 + n] == b[9..9 + n];
  }

  // ----- an answer other than plain TCP is HTTPS, needs the whole record, and has a clean host name

  ghost predicate Clean(v: Verdict) {
    v == PLAIN_TCP || (v.proto == Https && ValidDomain(v.info))
  }

  lemma {:induction false} NamesAnswers(body: Bytes, off: nat, end: nat)
    requires off <= end <= |body|
    ensures Names(body, off, end).Some? ==> Clean(Names(body, off, end).value)
    decreases end - off
  {
    if off + 3 <= end && off + 3 + Be16(body[off + 1], body[off + 2]) <= end && body[off] != 0 {
      NamesAnswers(body, off + 3 + Be16(body[off + 1], body[off + 2]), end);
    }
  }

  lemma {:induction false} ExtensionsAnswer(body: Bytes, off: nat, end: nat)
    requires off <= end <= |body|
    ensures Clean(Extensions(body, off, end))
    decreases end - off
  {
    if off + 4 <= end && off + 4 + Be16(body[off + 2], body[off + 3]) <= end {
      var elen := Be16(body[off + 2], body[off + 3]);
      if Be16(body[off], body[off + 1]) != 0 {
        ExtensionsAnswer(body, off + 4 + elen, end);
      } else if elen >= 2 && 2 + Be16(body[off + 4], body[off + 5]) <= elen {
        var listEnd := off + 6 + Be16(body[off + 4], body[off + 5]);
        NamesAnswers(body, off + 6, listEnd);
        ExtensionsAnswer(body, listEnd, end);
      }
    }
  }

  lemma {:induction false} AnswerNeedsWholeRecord(b: Bytes)
    ensures Sni(b) != PLAIN_TCP ==>
              HelloArrived(b) && Sni(b).proto == Https && ValidDomain(Sni(b).info)
  {
    if HelloArrived(b) {
      var body := b[9..9 + Be24(b[6], b[7], b[8])];
      forall off: nat, end: nat | off <= end <= |body|
        ensures Clean(Extensions(body, off, end))
      {
        ExtensionsAnswer(body, off, end);
      }
    }
  }

  /** What is recognised is made up of the parts of a ClientHello: none of its lengths reaches beyond the body. */
  lemma {:induction false} RecognisedIsBuilt(body: Bytes)
    returns (sessionId: Bytes, ciphers: Bytes, compression: Bytes, extensions: Bytes, rest: Bytes)
    requires Hello(body) != PLAIN_TCP
    ensures |body| >= 34 && |sessionId| < 0x100 && |ciphers| < 0x1_0000 && |compression| < 0x100
            && |extensions| < 0x1_0000
    ensures body[34..] == Vector8(sessionId) + (Vector16(ciphers) + (Vector8(compression) +
                             (Vector16(extensions) + rest)))
  {
    var a := Skip8(body, 34).value;
    sessionId := body[35..a];
    var b := Skip16(body, a).value;
    ciphers := body[a + 2..b];
    var c := Skip8(body, b).value;
    compression := body[b + 1..c];
    var d := Skip16(body, c).value;
    extensions, rest := body[c + 2..d], body[d..];
    Unskip8(body, 34, a);
    Unskip16(body, a, b);
    Unskip8(body, b, c);
    Unskip16(body, c, d);
  }

  lemma {:induction false} Unskip8(body: Bytes, from: nat, to: nat)
    requires Skip8(body, from) == Some(to)
    ensures from + 1 <= to <= |body| && to - from - 1 < 0x100
    ensures body[from..] == Vector8(body[from + 1..to]) + body[to..]
  {
  }

  lemma {:induction false} Unskip16(body: Bytes, from: nat, to: nat)
    requires Skip16(body, from) == Some(to)
    ensures from + 2 <= to <= |body| && to - from - 2 < 0x1_0000
    ensures body[from..] == Vector16(body[from + 2..to]) + body[to..]
  {
  }
}
