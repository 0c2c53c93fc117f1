/** The two texts that get signed: the request message and the revocation list. Each is
    injective, which is shown by cutting it back into its fields. */
module Preimages {
  import opened Wrappers
  import opened Machine
  import opened Text
  import opened Decimals
  import opened Order
  import Ss58

  lemma Assoc(a: string, b: string, c: string)
    ensures a + b + c == a + (b + c)
  {
  }

  // ---- the request message -----------------------------------------------------------------

  datatype Request = Request(verb: string, path: string, timestamp: u64, nonceHex: string, bodyHashHex: string)

  function RequestMessage(r: Request): string {
    r.verb + ['\n'] + r.path + ['\n'] + Decimal(r.timestamp) + ['\n'] + r.nonceHex + ['\n'] + r.bodyHashHex
  }

  method CanonicalMessage(r: Request) returns (s: string)
    ensures s == RequestMessage(r)
  {
    s := "";
    s := s + r.verb;
    assert s == r.verb;
    s := s + ['\n'];
    s := s + r.path;
    s := s + ['\n'];
    s := s + Decimal(r.timestamp);
    s := s + ['\n'];
    s := s + r.nonceHex;
    s := s + ['\n'];
    s := s + r.bodyHashHex;
  }

  /** The message as a first field and the rest. */
  function AfterTime(r: Request): string {
    r.nonceHex + ['\n'] + r.bodyHashHex
  }

  function AfterPath(r: Request): string {
    Decimal(r.timestamp) + ['\n'] + AfterTime(r)
  }

  function AfterVerb(r: Request): string {
    r.path + ['\n'] + AfterPath(r)
  }

  lemma RequestFields(r: Request)
    ensures RequestMessage(r) == r.verb + ['\n'] + AfterVerb(r)
  {
    var upToTime := r.verb + ['\n'] + r.path + ['\n'] + Decimal(r.timestamp) + ['\n'];
    Assoc(upToTime, r.nonceHex, ['\n']);
    Assoc(upToTime, r.nonceHex + ['\n'], r.bodyHashHex);
    var upToPath := r.verb + ['\n'] + r.path + ['\n'];
    Assoc(upToPath, Decimal(r.timestamp), ['\n']);
    Assoc(upToPath, Decimal(r.timestamp) + ['\n'], AfterTime(r));
    var upToVerb := r.verb + ['\n'];
    Assoc(upToVerb, r.path, ['\n']);
    Assoc(upToVerb, r.path + ['\n'], AfterPath(r));
  }

  /** The message, cut at its newlines: five lines, in this order. */
  lemma MessageLines(r: Request)
    requires '\n' !in r.verb && '\n' !in r.path && '\n' !in r.nonceHex && '\n' !in r.bodyHashHex
    ensures SplitOn(RequestMessage(r), '\n') == [r.verb, r.path, Decimal(r.timestamp), r.nonceHex, r.bodyHashHex]
  {
    RequestFields(r);
    OneLineDecimal(r.timestamp);
    SplitHead(r.verb, '\n', AfterVerb(r));
    SplitHead(r.path, '\n', AfterPath(r));
    SplitHead(Decimal(r.timestamp), '\n', AfterTime(r));
    SplitHead(r.nonceHex, '\n', r.bodyHashHex);
    SplitWhole(r.bodyHashHex, '\n');
  }

  /** The documented contract: method and path are one line. */
  predicate OneLineTarget(r: Request) {
    '\n' !in r.verb && '\n' !in r.path
  }

  /** Under the documented contract, two requests have one message exactly when they differ
      at most in where nonce and body hash are cut. */
  lemma SameMessageIff(r: Request, r': Request)
    requires OneLineTarget(r) && OneLineTarget(r')
    ensures RequestMessage(r) == RequestMessage(r') <==>
            r.verb == r'.verb && r.path == r'.path && r.timestamp == r'.timestamp && AfterTime(r) == AfterTime(r')
  {
    RequestFields(r);
    RequestFields(r');
    if RequestMessage(r) == RequestMessage(r') {
      CutAtSeparator('\n', r.verb, AfterVerb(r), r'.verb, AfterVerb(r'));
      CutAtSeparator('\n', r.path, AfterPath(r), r'.path, AfterPath(r'));
      OneLineDecimal(r.timestamp);
      OneLineDecimal(r'.timestamp);
      CutAtSeparator('\n', Decimal(r.timestamp), AfterTime(r), Decimal(r'.timestamp), AfterTime(r'));
      DecimalInjective(r.timestamp, r'.timestamp);
    }
  }

  /** The message determines the request as soon as one of the last two fields is one line
      on both sides, or both are on one side. */
  lemma RequestInjective(r: Request, r': Request)
    requires OneLineTarget(r) && OneLineTarget(r')
    requires
      || ('\n' !in r.nonceHex && '\n' !in r'.nonceHex)
      || ('\n' !in r.bodyHashHex && '\n' !in r'.bodyHashHex)
      || ('\n' !in r.nonceHex && '\n' !in r.bodyHashHex)
    requires RequestMessage(r) == RequestMessage(r')
    ensures r == r'
  {
    SameMessageIff(r, r');
    if '\n' !in r.nonceHex && '\n' !in r'.nonceHex {
      CutAtSeparator('\n', r.nonceHex, r.bodyHashHex, r'.nonceHex, r'.bodyHashHex);
    } else if '\n' !in r.bodyHashHex && '\n' !in r'.bodyHashHex {
      CutAtLast('\n', r.nonceHex, r.bodyHashHex, r'.nonceHex, r'.bodyHashHex);
    } else {
      CutAtOnly('\n', r.nonceHex, r.bodyHashHex, r'.nonceHex, r'.bodyHashHex);
    }
  }

  /** No other request that meets the documented contract has the message of `r`. */
  ghost predicate NamedByMessage(r: Request) {
    forall r' :: OneLineTarget(r') && RequestMessage(r') == RequestMessage(r) ==> r' == r
  }

  /** The exact scope of the documented contract: among requests with a one-line method and
      path, a message names one request exactly when its nonce and body hash are one line. */
  lemma NamedByMessageIff(r: Request)
    requires OneLineTarget(r)
    ensures NamedByMessage(r) <==> '\n' !in r.nonceHex && '\n' !in r.bodyHashHex
  {
    if '\n' !in r.nonceHex && '\n' !in r.bodyHashHex {
      forall r' | OneLineTarget(r') && RequestMessage(r') == RequestMessage(r) ensures r' == r {
        RequestInjective(r, r');
      }
    } else {
      var r' := OtherCut(r);
    }
  }

  /** Moving the cut to another newline gives another request with the same message. */
  lemma OtherCut(r: Request) returns (r': Request)
    requires OneLineTarget(r) && ('\n' in r.nonceHex || '\n' in r.bodyHashHex)
    ensures OneLineTarget(r') && r' != r && RequestMessage(r') == RequestMessage(r)
  {
    var n, b := r.nonceHex, r.bodyHashHex;
    if '\n' in n {
      var i :| 0 <= i < |n| && n[i] == '\n';
      r' := r.(nonceHex := n[..i], bodyHashHex := n[i + 1..] + ['\n'] + b);
      assert n == n[..i] + ['\n'] + n[i + 1..];
    } else {
      var i :| 0 <= i < |b| && b[i] == '\n';
      r' := r.(nonceHex := n + ['\n'] + b[..i], bodyHashHex := b[i + 1..]);
      assert b == b[..i] + ['\n'] + b[i + 1..];
    }
    assert AfterTime(r') == AfterTime(r);
    SameMessageIff(r, r');
  }

  lemma OneLineDecimal(n: nat)
    ensures '\n' !in Decimal(n) && ':' !in Decimal(n)
  {
    if '\n' in Decimal(n) {
      DecimalClean(n, '\n');
    }
    if ':' in Decimal(n) {
      DecimalClean(n, ':');
    }
  }

  /** Two requests that meet the documented contract and collide: a newline in the nonce of
      one and in the body hash of the other. */
  lemma NonceNewlineCollides()
    ensures var (r, r') := (Request("GET", "/", 0, "a\nb", "c"), Request("GET", "/", 0, "a", "b\nc"));
            OneLineTarget(r) && OneLineTarget(r') && r != r' && RequestMessage(r) == RequestMessage(r')
  {
    var (r, r') := (Request("GET", "/", 0, "a\nb", "c"), Request("GET", "/", 0, "a", "b\nc"));
    assert AfterTime(r) == "a\nb\nc" == AfterTime(r');
    SameMessageIff(r, r');
  }

  /** The signer prints nonce and body hash as hex: the message then determines the 16 nonce
      bytes and the hash bytes themselves. */
  lemma {:induction false} SignedRequestInjective(
      verb: string, path: string, t: u64, nonce: seq<byte>, hash: seq<byte>,
      verb': string, path': string, t': u64, nonce': seq<byte>, hash': seq<byte>)
    requires '\n' !in verb && '\n' !in path && '\n' !in verb' && '\n' !in path'
    requires RequestMessage(Request(verb, path, t, HexEncode(nonce), HexEncode(hash))) ==
             RequestMessage(Request(verb', path', t', HexEncode(nonce'), HexEncode(hash')))
    ensures verb == verb' && path == path' && t == t' && nonce == nonce' && hash == hash'
  {
    HexIsOneLine(nonce);
    HexIsOneLine(nonce');
    RequestInjective(Request(verb, path, t, HexEncode(nonce), HexEncode(hash)),
                     Request(verb', path', t', HexEncode(nonce'), HexEncode(hash')));
    HexInjective(nonce, nonce');
    HexInjective(hash, hash');
  }

  lemma {:induction false} HexIsOneLine(b: seq<byte>)
    ensures '\n' !in HexEncode(b)
  {
    if b != [] {
      HexIsOneLine(b[1..]);
      assert '\n' !in HEX_DIGITS;
      assert HEX_DIGITS[b[0] / 16] in HEX_DIGITS && HEX_DIGITS[b[0] % 16] in HEX_DIGITS;
    }
  }

  lemma HexInjective(a: seq<byte>, b: seq<byte>)
    requires HexEncode(a) == HexEncode(b)
    ensures a == b
  {
    HexMatchIsDecode(HexEncode(a), a);
    HexMatchIsDecode(HexEncode(b), b);
  }

  // ---- the revocation list -------------------------------------------------------------------

  datatype CrlEntry = CrlEntry(pubkey: string, revokedAt: u64, reason: string)

  function EntryCmp(a: CrlEntry, b: CrlEntry): Ordering {
    CmpString(a.pubkey, b.pubkey)
  }

  /** Line breaks are refused in a reason at the deserialization boundary. */
  predicate SingleLine(reason: string) {
    '\n' !in reason && '\r' !in reason
  }

  function Line(e: CrlEntry): string {
    e.pubkey + [':'] + Decimal(e.revokedAt) + [':'] + e.reason
  }

  function Lines(es: seq<CrlEntry>): string {
    if es == [] then "" else Line(es[0]) + ['\n'] + Lines(es[1..])
  }

  /** The first three lines. */
  function Header(version: u64, generatedAt: u64): string {
    "v1\n" + Decimal(version) + ['\n'] + Decimal(generatedAt) + ['\n']
  }

  function CrlMessage(version: u64, generatedAt: u64, revocations: seq<CrlEntry>): string {
    Header(version, generatedAt) + Lines(StableSort(revocations, EntryCmp))
  }

  method PushEntry(out: string, e: CrlEntry) returns (r: string)
    ensures r == out + (Line(e) + ['\n'])
  {
    r := out + e.pubkey;
    Assoc(out, e.pubkey, [':']);
    r := r + [':'];
    ghost var field := e.pubkey + [':'];
    Assoc(out, field, Decimal(e.revokedAt));
    r := r + Decimal(e.revokedAt);
    field := field + Decimal(e.revokedAt);
    Assoc(out, field, [':']);
    r := r + [':'];
    field := field + [':'];
    Assoc(out, field, e.reason);
    r := r + e.reason;
    Assoc(out, field + e.reason, ['\n']);
    r := r + ['\n'];
  }

  method CrlCanonicalMessage(version: u64, generatedAt: u64, revocations: seq<CrlEntry>) returns (out: string)
    ensures out == CrlMessage(version, generatedAt, revocations)
  {
    var sorted := StableSort(revocations, EntryCmp);
    out := "v1\n";
    out := out + Decimal(version);
    out := out + ['\n'];
    out := out + Decimal(generatedAt);
    out := out + ['\n'];
    ghost var header := out;
    assert sorted[0..] == sorted;
    for i := 0 to |sorted|
      invariant out + Lines(sorted[i..]) == header + Lines(sorted)
    {
      LinesFrom(out, sorted, i);
      out := PushEntry(out, sorted[i]);
    }
  }

  lemma LinesFrom(out: string, es: seq<CrlEntry>, i: nat)
    requires i < |es|
    ensures out + Lines(es[i..]) == out + (Line(es[i]) + ['\n']) + Lines(es[i + 1..])
  {
    assert es[i..][1..] == es[i + 1..];
    Assoc(out, Line(es[i]) + ['\n'], Lines(es[i + 1..]));
  }

  /** What keeps an entry on one line, with its first two fields free of the field separator.
      The reason may contain ':'. */
  predicate CleanEntry(e: CrlEntry) {
    ':' !in e.pubkey && '\n' !in e.pubkey && '\n' !in e.reason
  }

  lemma LineFields(e: CrlEntry)
    ensures Line(e) == e.pubkey + [':'] + (Decimal(e.revokedAt) + [':'] + e.reason)
  {
    Assoc(e.pubkey + [':'], Decimal(e.revokedAt), [':']);
    Assoc(e.pubkey + [':'], Decimal(e.revokedAt) + [':'], e.reason);
  }

  lemma LineInjective(e: CrlEntry, f: CrlEntry)
    requires CleanEntry(e) && CleanEntry(f) && Line(e) == Line(f)
    ensures e == f
  {
    LineFields(e);
    LineFields(f);
    CutAtSeparator(':', e.pubkey, Decimal(e.revokedAt) + [':'] + e.reason,
                   f.pubkey, Decimal(f.revokedAt) + [':'] + f.reason);
    OneLineDecimal(e.revokedAt);
    OneLineDecimal(f.revokedAt);
    CutAtSeparator(':', Decimal(e.revokedAt), e.reason, Decimal(f.revokedAt), f.reason);
    DecimalInjective(e.revokedAt, f.revokedAt);
  }

  lemma LineIsOneLine(e: CrlEntry)
    requires CleanEntry(e)
    ensures '\n' !in Line(e)
  {
    OneLineDecimal(e.revokedAt);
  }

  ghost predicate AllClean(es: seq<CrlEntry>) {
    forall e :: e in es ==> CleanEntry(e)
  }

  lemma CleanTail(es: seq<CrlEntry>)
    requires AllClean(es) && es != []
    ensures CleanEntry(es[0]) && AllClean(es[1..]) && es == [es[0]] + es[1..]
  {
    assert es[0] in es && forall e :: e in es[1..] ==> e in es;
  }

  lemma {:induction false} LinesInjective(es: seq<CrlEntry>, fs: seq<CrlEntry>)
    requires AllClean(es) && AllClean(fs) && Lines(es) == Lines(fs)
    ensures es == fs
  {
    if es != [] && fs != [] {
      CleanTail(es);
      CleanTail(fs);
      FirstLine(es[0], Lines(es[1..]), fs[0], Lines(fs[1..]));
      LinesInjective(es[1..], fs[1..]);
    }
  }

  lemma FirstLine(e: CrlEntry, x: string, f: CrlEntry, y: string)
    requires CleanEntry(e) && CleanEntry(f) && Line(e) + ['\n'] + x == Line(f) + ['\n'] + y
    ensures e == f && x == y
  {
    LineIsOneLine(e);
    LineIsOneLine(f);
    CutAtSeparator('\n', Line(e), x, Line(f), y);
    LineInjective(e, f);
  }

  lemma EntryOrder()
    ensures TotalPreorder(EntryCmp)
  {
    StringTotal();
  }

  lemma SortedClean(es: seq<CrlEntry>)
    requires AllClean(es)
    ensures AllClean(StableSort(es, EntryCmp))
  {
    EntryOrder();
    SortSorted(es, EntryCmp);
    forall e | e in StableSort(es, EntryCmp) ensures CleanEntry(e) {
      assert e in multiset(StableSort(es, EntryCmp));
    }
  }

  /** Two signed revocation lists have one message exactly when version, time and stably
      sorted entries are equal. */
  lemma {:induction false} CrlInjective(v: u64, t: u64, es: seq<CrlEntry>, v': u64, t': u64, es': seq<CrlEntry>)
    requires AllClean(es) && AllClean(es')
    ensures CrlMessage(v, t, es) == CrlMessage(v', t', es') <==>
            v == v' && t == t' && StableSort(es, EntryCmp) == StableSort(es', EntryCmp)
  {
    if CrlMessage(v, t, es) == CrlMessage(v', t', es') {
      var (ls, ls') := (Lines(StableSort(es, EntryCmp)), Lines(StableSort(es', EntryCmp)));
      HeaderInjective(v, t, ls, v', t', ls');
      SortedClean(es);
      SortedClean(es');
      LinesInjective(StableSort(es, EntryCmp), StableSort(es', EntryCmp));
    }
  }

  lemma HeaderFields(v: u64, t: u64, ls: string)
    ensures Header(v, t) + ls == "v1\n" + (Decimal(v) + ['\n'] + (Decimal(t) + ['\n'] + ls))
  {
    var upToVersion := "v1\n" + Decimal(v) + ['\n'];
    Assoc(upToVersion, Decimal(t), ['\n']);
    Assoc(upToVersion, Decimal(t) + ['\n'], ls);
    Assoc("v1\n", Decimal(v), ['\n']);
    Assoc("v1\n", Decimal(v) + ['\n'], Decimal(t) + ['\n'] + ls);
  }

  lemma HeaderInjective(v: u64, t: u64, ls: string, v': u64, t': u64, ls': string)
    requires Header(v, t) + ls == Header(v', t') + ls'
    ensures v == v' && t == t' && ls == ls'
  {
    HeaderFields(v, t, ls);
    HeaderFields(v', t', ls');
    var (rest, rest') := (Decimal(t) + ['\n'] + ls, Decimal(t') + ['\n'] + ls');
    assert ("v1\n" + (Decimal(v) + ['\n'] + rest))[3..] == Decimal(v) + ['\n'] + rest;
    assert ("v1\n" + (Decimal(v') + ['\n'] + rest'))[3..] == Decimal(v') + ['\n'] + rest';
    OneLineDecimal(v);
    OneLineDecimal(v');
    CutAtSeparator('\n', Decimal(v), rest, Decimal(v'), rest');
    DecimalInjective(v, v');
    OneLineDecimal(t);
    OneLineDecimal(t');
    CutAtSeparator('\n', Decimal(t), ls, Decimal(t'), ls');
    DecimalInjective(t, t');
  }

  ghost predicate OnePerPubkey(s: seq<CrlEntry>) {
    forall e, f :: e in s && f in s && e.pubkey == f.pubkey ==> e == f
  }

  lemma SameHead(s: seq<CrlEntry>, t: seq<CrlEntry>)
    requires SortedBy(s, EntryCmp) && SortedBy(t, EntryCmp) && s != [] && t != []
    requires s[0] in t && t[0] in s && OnePerPubkey(s)
    ensures s[0] == t[0]
  {
    var i :| 0 <= i < |s| && s[i] == t[0];
    var j :| 0 <= j < |t| && t[j] == s[0];
    assert i > 0 ==> EntryCmp(s[0], s[i]) != Greater;
    assert j > 0 ==> EntryCmp(t[0], t[j]) != Greater;
    LexAntisymmetric(CmpChar, s[0].pubkey, t[0].pubkey);
  }

  lemma Tail(s: seq<CrlEntry>)
    requires s != [] && SortedBy(s, EntryCmp)
    ensures SortedBy(s[1..], EntryCmp)
    ensures multiset(s[1..]) == multiset(s) - multiset{s[0]}
    ensures OnePerPubkey(s) ==> OnePerPubkey(s[1..])
  {
    assert s == [s[0]] + s[1..];
    assert forall e :: e in s[1..] ==> e in s;
  }

  /** Sorted with the same elements, one per pubkey. */
  ghost predicate SameSorted(s: seq<CrlEntry>, t: seq<CrlEntry>) {
    SortedBy(s, EntryCmp) && SortedBy(t, EntryCmp) && multiset(s) == multiset(t) && OnePerPubkey(s)
  }

  lemma Peel(s: seq<CrlEntry>, t: seq<CrlEntry>)
    requires SameSorted(s, t) && s != []
    ensures t != [] && s[0] == t[0] && SameSorted(s[1..], t[1..])
  {
    assert s[0] in multiset(t);
    assert t[0] in multiset(s);
    SameHead(s, t);
    Tail(s);
    Tail(t);
  }

  lemma {:induction false} SortedUnique(s: seq<CrlEntry>, t: seq<CrlEntry>)
    requires SameSorted(s, t)
    ensures s == t
  {
    if s == [] {
      assert |multiset(t)| == 0;
    } else {
      Peel(s, t);
      SortedUnique(s[1..], t[1..]);
      assert s == [s[0]] + s[1..] && t == [t[0]] + t[1..];
    }
  }

  /** What of the input order a message keeps: two lists have one message exactly when, for
      every pubkey, they list its entries in the same order. */
  lemma {:induction false} CrlOrderIff(v: u64, t: u64, es: seq<CrlEntry>, es': seq<CrlEntry>)
    requires AllClean(es) && AllClean(es')
    ensures CrlMessage(v, t, es) == CrlMessage(v, t, es') <==>
            SameClassOrder(es, es', EntryCmp)
  {
    CrlInjective(v, t, es, v, t, es');
    EntryOrder();
    SameSortIff(es, es', EntryCmp);
  }

  /** With one entry per pubkey, the message does not depend on the input order. */
  lemma CrlIgnoresOrder(v: u64, t: u64, es: seq<CrlEntry>, es': seq<CrlEntry>)
    requires multiset(es) == multiset(es')
    requires OnePerPubkey(es)
    ensures CrlMessage(v, t, es) == CrlMessage(v, t, es')
  {
    EntryOrder();
    SortSorted(es, EntryCmp);
    SortSorted(es', EntryCmp);
    var s := StableSort(es, EntryCmp);
    forall e | e in s ensures e in es {
      assert e in multiset(s);
      assert e in multiset(es);
    }
    SortedUnique(s, StableSort(es', EntryCmp));
  }

  /** The boundary check refuses line feed and carriage return anywhere in a reason, and nothing
      else. */
  lemma SingleLineMeans(reason: string)
    ensures SingleLine(reason) <==> forall i :: 0 <= i < |reason| ==> reason[i] as int != 10 && reason[i] as int != 13
  {
    if !SingleLine(reason) {
      var i :| 0 <= i < |reason| && (reason[i] == '\n' || reason[i] == '\r');
    }
  }

  /** An accepted address is free of both separators, so an entry built from one and a
      single-line reason is clean. */
  lemma ValidatedEntryIsClean(h: Ss58.Hash, e: CrlEntry)
    requires Ss58.Decode(h, e.pubkey).Ok? && SingleLine(e.reason)
    ensures CleanEntry(e)
  {
    var key := Ss58.Decode(h, e.pubkey).value;
    Ss58.DecodeExact(h, e.pubkey, key);
    Ss58.AddressIsAscii(h, key);
  }

  // ---- the revocation list, read back ------------------------------------------------------

  /** Entries in ascending order of pubkey, those of one pubkey as they came. */
  ghost predicate InOrder(es: seq<CrlEntry>, sorted: seq<CrlEntry>) {
    && multiset(sorted) == multiset(es)
    && (forall i, j :: 0 <= i < j < |sorted| ==> !TextBefore(sorted[j].pubkey, sorted[i].pubkey))
    && SameClassOrder(sorted, es, EntryCmp)
  }

  /** The lines of the list of entries, and the empty line after the last newline. */
  function EntryLines(es: seq<CrlEntry>): seq<string> {
    if es == [] then [""]
    else [es[0].pubkey + ":" + Decimal(es[0].revokedAt) + ":" + es[0].reason] + EntryLines(es[1..])
  }

  lemma {:induction false} LinesSplit(es: seq<CrlEntry>)
    requires AllClean(es)
    ensures SplitOn(Lines(es), '\n') == EntryLines(es)
  {
    if es != [] {
      CleanTail(es);
      LineIsOneLine(es[0]);
      SplitHead(Line(es[0]), '\n', Lines(es[1..]));
      LinesSplit(es[1..]);
    }
  }

  lemma TagLine(rest: string)
    ensures SplitOn("v1\n" + rest, '\n') == ["v1"] + SplitOn(rest, '\n')
  {
    assert "v1\n" + rest == "v1" + ['\n'] + rest;
    SplitHead("v1", '\n', rest);
  }

  lemma TwoLines(a: string, b: string, rest: string)
    requires '\n' !in a && '\n' !in b
    ensures SplitOn(a + ['\n'] + (b + ['\n'] + rest), '\n') == [a, b] + SplitOn(rest, '\n')
  {
    SplitHead(a, '\n', b + ['\n'] + rest);
    SplitHead(b, '\n', rest);
  }

  lemma HeaderLines(v: u64, t: u64, ls: string)
    ensures SplitOn(Header(v, t) + ls, '\n') == ["v1", Decimal(v), Decimal(t)] + SplitOn(ls, '\n')
  {
    HeaderFields(v, t, ls);
    OneLineDecimal(v);
    OneLineDecimal(t);
    TagLine(Decimal(v) + ['\n'] + (Decimal(t) + ['\n'] + ls));
    TwoLines(Decimal(v), Decimal(t), ls);
  }

  lemma SortedInOrder(es: seq<CrlEntry>)
    ensures InOrder(es, StableSort(es, EntryCmp))
  {
    var sorted := StableSort(es, EntryCmp);
    EntryOrder();
    SortSorted(es, EntryCmp);
    SortKeepsClasses(es, EntryCmp);
    forall i, j | 0 <= i < j < |sorted| ensures !TextBefore(sorted[j].pubkey, sorted[i].pubkey) {
      TextBeforeIff(sorted[i].pubkey, sorted[j].pubkey);
      assert EntryCmp(sorted[i], sorted[j]) != Greater;
    }
  }

  /** The message, cut at its newlines: the format tag, version and time, then one line of
      pubkey, time and reason for each entry, in order. */
  lemma CrlLines(v: u64, t: u64, es: seq<CrlEntry>) returns (sorted: seq<CrlEntry>)
    requires AllClean(es)
    ensures InOrder(es, sorted)
    ensures SplitOn(CrlMessage(v, t, es), '\n') == ["v1", Decimal(v), Decimal(t)] + EntryLines(sorted)
  {
    sorted := StableSort(es, EntryCmp);
    SortedInOrder(es);
    SortedClean(es);
    LinesSplit(sorted);
    HeaderLines(v, t, Lines(sorted));
  }
}
