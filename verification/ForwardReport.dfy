/** The report of the forwarding configuration, TM[14,4]: two passes over the sorted map, and what a
    reader of the report gets back. */
module ForwardReport {
  import opened Bits
  import opened Messages
  import opened ForwardConfig
  import opened ForwardInvariant

  const MAX_APPLICATIONS := 5
  const MAX_COMBINATIONS := 50
  const NO_APPLICATION := 255

  type Keys = seq<Key>

  // ----- the keys in order

  function KeysBelow(m: Definitions, n: nat): Keys
    requires n <= 0x1_0000
  {
    if n == 0 then [] else KeysBelow(m, n - 1) + if n - 1 in m then [n - 1] else []
  }

  /** The order in which the map is walked. */
  function SortedKeys(m: Definitions): Keys
  {
    KeysBelow(m, 0x1_0000)
  }

  predicate Increasing(keys: Keys)
  {
    forall i, j :: 0 <= i < j < |keys| ==> keys[i] < keys[j]
  }

  lemma {:induction false} KeysBelowMembers(m: Definitions, n: nat)
    requires n <= 0x1_0000
    ensures forall k :: k in KeysBelow(m, n) <==> k in m && k < n
    ensures Increasing(KeysBelow(m, n))
  {
    if n > 0 {
      KeysBelowMembers(m, n - 1);
      var before := KeysBelow(m, n - 1);
      assert forall i :: 0 <= i < |before| ==> before[i] in before;
    }
  }

  function Under(m: Definitions, n: nat): set<Key>
  {
    set k | k in m && k < n
  }

  lemma {:induction false} KeysBelowCount(m: Definitions, n: nat)
    requires n <= 0x1_0000
    ensures |KeysBelow(m, n)| == |Under(m, n)|
  {
    if n > 0 {
      KeysBelowCount(m, n - 1);
      UnderNext(m, n - 1);
      hide Under;
    }
  }

  lemma UnderNext(m: Definitions, n: Key)
    ensures |Under(m, n + 1)| == |Under(m, n)| + if n in m then 1 else 0
  {
    assert Under(m, n + 1) == Under(m, n) + if n in m then {n} else {};
  }

  lemma SortedKeysFacts(m: Definitions)
    ensures Increasing(SortedKeys(m)) && |SortedKeys(m)| == |m|
    ensures forall k :: k in SortedKeys(m) <==> k in m
  {
    AllKeys(m, 0x1_0000);
  }

  lemma AllKeys(m: Definitions, n: nat)
    requires n == 0x1_0000
    ensures Increasing(KeysBelow(m, n)) && |KeysBelow(m, n)| == |m|
    ensures forall k :: k in KeysBelow(m, n) <==> k in m
  {
    KeysBelowMembers(m, n);
    KeysBelowCount(m, n);
    hide KeysBelow;
    assert Under(m, n) == m.Keys;
  }

  // ----- groups of one application

  predicate IsStart(keys: Keys, i: nat)
    requires i < |keys|
  {
    i == 0 || AppOf(keys[i]) != AppOf(keys[i - 1])
  }

  /** How many groups begin among the first `i` keys. */
  function Starts(keys: Keys, i: nat): (n: nat)
    requires i <= |keys|
    ensures n <= i
  {
    if i == 0 then 0 else Starts(keys, i - 1) + if IsStart(keys, i - 1) then 1 else 0
  }

  /** The counters of the first pass: one per group, counting its keys. */
  function GroupCounts(keys: Keys, i: nat): (c: seq<nat>)
    requires i <= |keys|
    ensures |c| == Starts(keys, i) && (i > 0 ==> |c| > 0)
  {
    if i == 0 then []
    else
      var c := GroupCounts(keys, i - 1);
      if IsStart(keys, i - 1) then c + [1] else c[|c| - 1 := c[|c| - 1] + 1]
  }

  /** Where the group of key `i` ends. */
  function RunEnd(keys: Keys, i: nat): (e: nat)
    requires i < |keys|
    ensures i < e <= |keys|
    decreases |keys| - i
  {
    if i + 1 < |keys| && !IsStart(keys, i + 1) then RunEnd(keys, i + 1) else i + 1
  }

  lemma {:induction false} RunStarts(keys: Keys, i: nat, j: nat)
    requires i < |keys| && i < j <= RunEnd(keys, i)
    ensures Starts(keys, j) == Starts(keys, i + 1)
    ensures AppOf(keys[j - 1]) == AppOf(keys[i])
    ensures i + 1 < j ==> !IsStart(keys, j - 1)
    ensures RunEnd(keys, j - 1) == RunEnd(keys, i)
    ensures RunEnd(keys, i) < |keys| ==> IsStart(keys, RunEnd(keys, i))
    decreases |keys| - i
  {
    if i + 1 < |keys| && !IsStart(keys, i + 1) {
      if j > i + 1 {
        RunStarts(keys, i + 1, j);
      } else {
        RunStarts(keys, i + 1, i + 2);
      }
    }
  }

  /** The first pass counts what the second pass writes: the counter of a group, once the walk is
      past its first key `i`, is the number of its keys passed so far. */
  lemma {:induction false} CountsAreRuns(keys: Keys, i: nat, j: nat)
    requires i < j <= |keys| && IsStart(keys, i)
    ensures Starts(keys, i) < Starts(keys, j)
    ensures GroupCounts(keys, j)[Starts(keys, i)] == (if j < RunEnd(keys, i) then j else RunEnd(keys, i)) - i
    decreases j
  {
    if j > i + 1 {
      CountsAreRuns(keys, i, j - 1);
      var e := RunEnd(keys, i);
      if j <= e {
        RunStarts(keys, i, j);
        RunStarts(keys, i, i + 1);
      } else {
        RunStarts(keys, i, e);
        LaterGroups(keys, e, j);
      }
    }
  }

  /** Behind the end of a group the counters at the end belong to later groups. */
  lemma {:induction false} LaterGroups(keys: Keys, e: nat, j: nat)
    requires 0 < e < j <= |keys| && IsStart(keys, e)
    ensures Starts(keys, j) > Starts(keys, e)
    decreases j
  {
    if j > e + 1 {
      LaterGroups(keys, e, j - 1);
    }
  }

  // ----- the report

  function Header(keys: Keys, i: nat): seq<byte>
    requires i < |keys|
  {
    if IsStart(keys, i) then [AppOf(keys[i]), (RunEnd(keys, i) - i) % 0x100] else []
  }

  function Definition(m: Definitions, k: Key): seq<byte>
    requires k in m
  {
    [ServiceOf(k), |m[k]| % 0x100] + m[k]
  }

  predicate KeysOf(m: Definitions, keys: Keys)
  {
    forall i :: 0 <= i < |keys| ==> keys[i] in m
  }

  /** What the second pass has written before key `i`. */
  function Body(m: Definitions, keys: Keys, i: nat): seq<byte>
    requires i <= |keys| && KeysOf(m, keys)
  {
    if i == 0 then [Starts(keys, |keys|) % 0x100]
    else Body(m, keys, i - 1) + Header(keys, i - 1) + Definition(m, keys[i - 1])
  }

  /** The map is within its capacity and every count fits a byte. */
  predicate Reportable(m: Definitions)
  {
    |m| <= MAX_COMBINATIONS && forall k :: k in m ==> |m[k]| < 0x100
  }

  /** The report of a configuration. */
  function ReportBytes(m: Definitions): seq<byte>
  {
    SortedKeysFacts(m); Body(m, SortedKeys(m), |SortedKeys(m)|)
  }

  /** The report of a single entry, byte by byte. */
  lemma OneEntryReport(app: byte, service: byte, types: seq<byte>)
    requires |types| < 0x100
    ensures ReportBytes(map[0x100 * (app as int) + service := types]) == [1, app, 1, service, |types|] + types
  {
    var k: Key := 0x100 * (app as int) + service;
    var m, keys := map[k := types], SortedKeys(map[k := types]);
    SortedKeysFacts(m);
    OneKey(keys, k);
    hide SortedKeys;
    assert Starts([k], 1) == 1 && RunEnd([k], 0) == 1;
    assert AppOf(k) == app && ServiceOf(k) == service;
    hide Starts, RunEnd;
    assert Body(m, [k], 1) == Body(m, [k], 0) + Header([k], 0) + Definition(m, k);
  }

  lemma OneKey(keys: Keys, k: Key)
    requires |keys| == 1 && forall j :: j in keys <==> j == k
    ensures keys == [k]
  {
    assert keys[0] in keys;
  }

  // ----- the size of the report

  /** The applications with an entry. */
  function AppsIn(m: Definitions): set<uint16>
  {
    set k | k in m :: AppOf(k)
  }

  /** How many report types the entries below key `n` hold. */
  function TypesBelow(m: Definitions, n: nat): nat
    requires n <= 0x1_0000
  {
    if n == 0 then 0 else TypesBelow(m, n - 1) + |ListOf(m, n - 1)|
  }

  function Types(m: Definitions): nat
  {
    TypesBelow(m, 0x1_0000)
  }

  /** One byte for the number of applications, two for each application and each entry, and one for
      each report type. */
  function ReportSize(m: Definitions): nat
  {
    1 + 2 * |AppsIn(m)| + 2 * |m| + Types(m)
  }

  function TypesOf(m: Definitions, keys: Keys): nat
    requires KeysOf(m, keys)
  {
    if keys == [] then 0 else TypesOf(m, keys[..|keys| - 1]) + |m[keys[|keys| - 1]]|
  }

  lemma {:induction false} BodySize(m: Definitions, keys: Keys, i: nat)
    requires i <= |keys| && KeysOf(m, keys)
    ensures |Body(m, keys, i)| == 1 + 2 * Starts(keys, i) + 2 * i + TypesOf(m, keys[..i])
    decreases i
  {
    hide RunEnd, AppOf;
    if i > 0 {
      BodySize(m, keys, i - 1);
      assert keys[..i][..i - 1] == keys[..i - 1];
    }
  }

  lemma {:induction false} TypesOfBelow(m: Definitions, n: nat)
    requires n <= 0x1_0000
    ensures KeysOf(m, KeysBelow(m, n)) && TypesOf(m, KeysBelow(m, n)) == TypesBelow(m, n)
    decreases n
  {
    if n > 0 {
      TypesOfBelow(m, n - 1);
      var before := KeysBelow(m, n - 1);
      if n - 1 in m {
        var all := before + [n - 1];
        assert KeysBelow(m, n) == all && all[..|before|] == before;
      } else {
        assert KeysBelow(m, n) == before;
      }
    }
  }

  lemma TypesOfAll(m: Definitions, n: nat)
    requires n == 0x1_0000
    ensures KeysOf(m, SortedKeys(m)) && TypesOf(m, SortedKeys(m)) == Types(m)
  {
    TypesOfBelow(m, n);
  }

  lemma AppsOfAll(m: Definitions, keys: Keys)
    requires forall k :: k in keys <==> k in m
    ensures AppsIn(m) == Apps(keys, |keys|)
  {
    hide AppOf;
  }

  /** The length of the report, from the entries alone. */
  lemma ReportLength(m: Definitions)
    ensures |ReportBytes(m)| == ReportSize(m)
    ensures |AppsIn(m)| == Starts(SortedKeys(m), |SortedKeys(m)|)
  {
    hide SortedKeys, Body, TypesOf, Types, Starts, AppsIn, Apps;
    SortedKeysFacts(m);
    var keys := SortedKeys(m);
    BodySize(m, keys, |keys|);
    assert keys[..|keys|] == keys;
    TypesOfAll(m, 0x1_0000);
    StartsAreApps(keys, |keys|);
    AppsOfAll(m, keys);
  }

  lemma {:induction false} FewTypes(m: Definitions, n: nat, most: nat)
    requires n <= 0x1_0000 && forall k :: k in m ==> |m[k]| <= most
    ensures TypesBelow(m, n) <= most * |Under(m, n)|
    decreases n
  {
    hide Under;
    if n > 0 {
      FewTypes(m, n - 1, most);
      UnderNext(m, n - 1);
      OneMoreList(most, |Under(m, n - 1)|);
    } else {
      NoneUnder(m);
    }
  }

  lemma OneMoreList(most: nat, n: nat)
    ensures most * (n + 1) == most * n + most
  {
  }

  lemma NoneUnder(m: Definitions)
    ensures |Under(m, 0)| == 0
  {
    assert Under(m, 0) == {};
  }

  lemma AllTypes(m: Definitions, n: nat, most: nat)
    requires n == 0x1_0000 && forall k :: k in m ==> |m[k]| <= most
    ensures Types(m) <= most * |m|
  {
    FewTypes(m, n, most);
    hide TypesBelow;
    assert Under(m, n) == m.Keys;
  }

  /** Fifty entries of five applications fit one message as long as no list is longer than eighteen
      report types. */
  lemma ShortListsFit(m: Definitions)
    requires |m| <= MAX_COMBINATIONS && |AppsIn(m)| <= MAX_APPLICATIONS
    requires forall k :: k in m ==> |m[k]| <= 18
    ensures ReportSize(m) <= 1011 < MAX_MESSAGE_SIZE
  {
    hide Types, AppsIn;
    AllTypes(m, 0x1_0000, 18);
  }

  lemma KnownAtMostNine(service: byte)
    ensures |Known(service)| <= 9
  {
  }

  /** A valid configuration of at most fifty entries of at most five applications always fits one
      message. */
  lemma ValidIsReportable(m: Definitions)
    requires ValidConfig(m) && |m| <= MAX_COMBINATIONS && |AppsIn(m)| <= MAX_APPLICATIONS
    ensures Reportable(m)
    ensures |ReportBytes(m)| == ReportSize(m) <= MAX_MESSAGE_SIZE
  {
    hide Known, ReportSize, ReportBytes, AppsIn;
    forall k | k in m
      ensures |m[k]| <= 9
    {
      KnownAtMostNine(ServiceOf(k));
    }
    ReportLength(m);
    ShortListsFit(m);
  }

  // ----- the application id that stands for none

  /** Some application has another id than the one that stands for none, or there is none at all. */
  predicate StartsNumbered(m: Definitions)
  {
    m != map[] ==> exists k :: k in m && AppOf(k) != NO_APPLICATION
  }

  /** This is the same as the first group having another id. */
  lemma FirstIsNumbered(m: Definitions)
    ensures StartsNumbered(m) <==>
      (|SortedKeys(m)| > 0 ==> AppOf(SortedKeys(m)[0]) != NO_APPLICATION)
  {
    hide SortedKeys;
    SortedKeysFacts(m);
    var keys := SortedKeys(m);
    if |keys| > 0 {
      assert keys[0] in m;
      forall k | k in m
        ensures keys[0] <= k && AppOf(keys[0]) <= AppOf(k)
      {
        assert k in keys;
      }
    }
  }

  // ----- reading the report back

  datatype Entry = Entry(key: Key, types: seq<byte>)

  function Slice(b: seq<byte>, p: nat, n: nat): seq<byte>
  {
    if p + n <= |b| then b[p..p + n] else []
  }

  /** `n` definitions of application `app` at `p`, and the position behind them. */
  function DecodeServices(b: seq<byte>, p: nat, app: byte, n: nat): (seq<Entry>, nat)
    decreases n
  {
    if n == 0 then ([], p)
    else
      var l := ByteAt(b, p + 1);
      var (rest, e) := DecodeServices(b, p + 2 + l, app, n - 1);
      ([Entry(KeyOf(app, ByteAt(b, p)), Slice(b, p + 2, l))] + rest, e)
  }

  /** `n` applications at `p`. */
  function DecodeApps(b: seq<byte>, p: nat, n: nat): seq<Entry>
    decreases n
  {
    if n == 0 then []
    else
      var (entries, e) := DecodeServices(b, p + 2, ByteAt(b, p), ByteAt(b, p + 1));
      entries + DecodeApps(b, e, n - 1)
  }

  /** The map with the decoded entries. */
  function AsMap(entries: seq<Entry>): Definitions
  {
    if entries == [] then map[]
    else AsMap(entries[..|entries| - 1])[entries[|entries| - 1].key := entries[|entries| - 1].types]
  }

  function Decoded(b: seq<byte>): Definitions
  {
    AsMap(DecodeApps(b, 1, ByteAt(b, 0)))
  }

  function Entries(m: Definitions, keys: Keys): seq<Entry>
    requires KeysOf(m, keys)
  {
    seq(|keys|, i requires 0 <= i < |keys| => Entry(keys[i], m[keys[i]]))
  }

  // ----- the round trip

  lemma {:induction false} BodyPrefix(m: Definitions, keys: Keys, i: nat, n: nat)
    requires i <= n <= |keys| && KeysOf(m, keys)
    ensures |Body(m, keys, i)| <= |Body(m, keys, n)|
    ensures Body(m, keys, n)[..|Body(m, keys, i)|] == Body(m, keys, i)
    decreases n
  {
    hide Header, Definition, Starts;
    if i < n {
      BodyPrefix(m, keys, i, n - 1);
    }
  }

  /** `b` begins with the whole report. */
  predicate Reports(m: Definitions, keys: Keys, b: seq<byte>)
  {
    KeysOf(m, keys) && Body(m, keys, |keys|) <= b
  }

  /** Where the block of key `i` begins. */
  function At(m: Definitions, keys: Keys, i: nat): nat
    requires i <= |keys| && KeysOf(m, keys)
  {
    |Body(m, keys, i)|
  }

  /** `b` holds `x` at `p`. */
  predicate HasAt(b: seq<byte>, p: nat, x: seq<byte>)
  {
    p + |x| <= |b| && b[p..p + |x|] == x
  }

  lemma HasByte(b: seq<byte>, p: nat, x: seq<byte>, k: nat)
    requires HasAt(b, p, x) && k < |x|
    ensures ByteAt(b, p + k) == x[k]
  {
    assert b[p..p + |x|][k] == b[p + k];
    BigEndianOne(b, p + k);
  }

  lemma HasParts(b: seq<byte>, p: nat, x: seq<byte>, y: seq<byte>)
    requires HasAt(b, p, x + y)
    ensures HasAt(b, p, x) && HasAt(b, p + |x|, y)
  {
    var z := x + y;
    assert b[p..p + |x|] == b[p..p + |z|][..|x|] == z[..|x|];
    assert b[p + |x|..p + |z|] == b[p..p + |z|][|x|..] == z[|x|..];
  }

  lemma BlockOf(m: Definitions, keys: Keys, b: seq<byte>, i: nat)
    requires i < |keys| && Reports(m, keys, b)
    ensures var p, h, t := At(m, keys, i), Header(keys, i), Definition(m, keys[i]);
      At(m, keys, i + 1) == p + |h| + |t| && HasAt(b, p, h) && HasAt(b, p + |h|, t)
  {
    BodyNext(m, keys, i);
    hide Header, Definition, Body, HasAt;
    BodyPrefix(m, keys, i + 1, |keys|);
    var before, h, t := Body(m, keys, i), Header(keys, i), Definition(m, keys[i]);
    PrefixAt(b, Body(m, keys, |keys|), before + (h + t));
    HasParts(b, 0, before, h + t);
    HasParts(b, |before|, h, t);
  }

  lemma BodyNext(m: Definitions, keys: Keys, i: nat)
    requires i < |keys| && KeysOf(m, keys)
    ensures Body(m, keys, i + 1) == Body(m, keys, i) + (Header(keys, i) + Definition(m, keys[i]))
  {
    hide Header, Definition, Starts;
  }

  lemma PrefixAt(b: seq<byte>, whole: seq<byte>, x: seq<byte>)
    requires whole <= b && |x| <= |whole| && whole[..|x|] == x
    ensures HasAt(b, 0, x)
  {
    assert b[0..|x|] == whole[..|x|];
  }

  /** One definition reads back as its entry. */
  lemma DecodeOne(m: Definitions, b: seq<byte>, k: Key, p: nat)
    requires k in m && |m[k]| < 0x100 && HasAt(b, p, Definition(m, k))
    ensures KeyOf(AppOf(k), ByteAt(b, p)) == k
    ensures ByteAt(b, p + 1) == |m[k]| && Slice(b, p + 2, |m[k]|) == m[k]
  {
    var two: seq<byte> := [ServiceOf(k), |m[k]|];
    assert Definition(m, k) == two + m[k];
    HasParts(b, p, two, m[k]);
    HasByte(b, p, two, 0);
    HasByte(b, p, two, 1);
    hide HasAt;
    assert HasAt(b, p + 2, m[k]);
    SliceHas(b, p + 2, m[k]);
  }

  lemma SliceHas(b: seq<byte>, p: nat, x: seq<byte>)
    requires HasAt(b, p, x)
    ensures Slice(b, p, |x|) == x
  {
  }

  lemma DecodeNext(b: seq<byte>, p: nat, app: byte, n: nat, k: Key, types: seq<byte>)
    requires n > 0 && KeyOf(app, ByteAt(b, p)) == k && ByteAt(b, p + 1) == |types| && Slice(b, p + 2, |types|) == types
    ensures var (rest, e) := DecodeServices(b, p + 2 + |types|, app, n - 1);
      DecodeServices(b, p, app, n) == ([Entry(k, types)] + rest, e)
  {
    hide ByteAt, KeyOf, Slice;
  }

  lemma {:induction false} DecodeRun(m: Definitions, keys: Keys, b: seq<byte>, i: nat, n: nat, p: nat)
    requires i < |keys| && n == RunEnd(keys, i) - i && Reports(m, keys, b) && Reportable(m)
    requires p == At(m, keys, i) + |Header(keys, i)|
    ensures DecodeServices(b, p, AppOf(keys[i]), n) == (Entries(m, keys)[i..i + n], At(m, keys, i + n))
    decreases n
  {
    hide Body, ByteAt, Slice, Reportable, KeyOf, Starts, AppOf, HasAt, IsStart, RunEnd, Header, DecodeServices;
    var k := keys[i];
    ListFits(m, k);
    BlockOf(m, keys, b, i);
    DecodeOne(m, b, k, p);
    DecodeNext(b, p, AppOf(k), n, k, m[k]);
    EntriesStep(m, keys, i, i + n);
    var q := p + 2 + |m[k]|;
    if n > 1 {
      SameApp(keys, i);
      DecodeRun(m, keys, b, i + 1, n - 1, q);
    } else {
      NoServicesDecoded(b, q, AppOf(k));
    }
  }

  lemma ListFits(m: Definitions, k: Key)
    requires Reportable(m) && k in m
    ensures |m[k]| < 0x100
  {
  }

  lemma EntriesStep(m: Definitions, keys: Keys, i: nat, j: nat)
    requires i < j <= |keys| && KeysOf(m, keys)
    ensures Entries(m, keys)[i..j] == [Entry(keys[i], m[keys[i]])] + Entries(m, keys)[i + 1..j]
    ensures Entries(m, keys)[j..j] == []
  {
  }

  lemma NoServicesDecoded(b: seq<byte>, p: nat, app: byte)
    ensures DecodeServices(b, p, app, 0) == ([], p)
  {
  }

  lemma SameApp(keys: Keys, i: nat)
    requires i < |keys| && RunEnd(keys, i) > i + 1
    ensures i + 1 < |keys| && AppOf(keys[i + 1]) == AppOf(keys[i]) && Header(keys, i + 1) == []
    ensures RunEnd(keys, i + 1) == RunEnd(keys, i)
  {
  }

  lemma {:induction false} DecodeFrom(m: Definitions, keys: Keys, b: seq<byte>, i: nat, g: nat)
    requires i <= |keys| && Reports(m, keys, b) && Reportable(m) && |keys| < 0x100
    requires i < |keys| ==> IsStart(keys, i)
    requires g == Starts(keys, |keys|) - Starts(keys, i)
    ensures DecodeApps(b, At(m, keys, i), g) == Entries(m, keys)[i..]
    decreases |keys| - i
  {
    hide Body, ByteAt, Reportable, AppOf, HasAt, IsStart, Starts, RunEnd;
    hide DecodeServices, Definition, Header, DecodeApps;
    if i < |keys| {
      var e, p := RunEnd(keys, i), At(m, keys, i);
      BlockOf(m, keys, b, i);
      ReadHeader(keys, b, i, p);
      DecodeRun(m, keys, b, i, e - i, p + 2);
      NextGroup(keys, i);
      DecodeFrom(m, keys, b, e, g - 1);
      DecodeAppsNext(b, p, g, AppOf(keys[i]), e - i, Entries(m, keys)[i..e], At(m, keys, e));
      assert Entries(m, keys)[i..] == Entries(m, keys)[i..e] + Entries(m, keys)[e..];
    } else {
      NoAppsDecoded(b, At(m, keys, i));
    }
  }

  lemma ReadHeader(keys: Keys, b: seq<byte>, i: nat, p: nat)
    requires i < |keys| < 0x100 && IsStart(keys, i) && HasAt(b, p, Header(keys, i))
    ensures |Header(keys, i)| == 2
    ensures ByteAt(b, p) == AppOf(keys[i]) && ByteAt(b, p + 1) == RunEnd(keys, i) - i
  {
    hide AppOf, RunEnd, IsStart, ByteAt;
    HasByte(b, p, Header(keys, i), 0);
    HasByte(b, p, Header(keys, i), 1);
  }

  lemma DecodeAppsNext(b: seq<byte>, p: nat, g: nat, app: byte, n: nat, entries: seq<Entry>, e: nat)
    requires g > 0 && ByteAt(b, p) == app && ByteAt(b, p + 1) == n
    requires DecodeServices(b, p + 2, app, n) == (entries, e)
    ensures DecodeApps(b, p, g) == entries + DecodeApps(b, e, g - 1)
  {
    hide ByteAt, DecodeServices;
  }

  lemma NoAppsDecoded(b: seq<byte>, p: nat)
    ensures DecodeApps(b, p, 0) == []
  {
  }

  lemma NextGroup(keys: Keys, i: nat)
    requires i < |keys| && IsStart(keys, i)
    ensures var e := RunEnd(keys, i);
      && Starts(keys, e) == Starts(keys, i) + 1 <= Starts(keys, |keys|)
      && (e < |keys| ==> IsStart(keys, e))
  {
    var e := RunEnd(keys, i);
    RunStarts(keys, i, e);
    if e < |keys| {
      LaterGroups(keys, e, |keys|);
    }
  }

  lemma {:induction false} AsMapOfEntries(m: Definitions, keys: Keys, n: nat)
    requires n <= |keys| && KeysOf(m, keys)
    ensures forall k :: k in AsMap(Entries(m, keys)[..n]) <==> k in keys[..n]
    ensures forall k :: k in keys[..n] ==> AsMap(Entries(m, keys)[..n])[k] == m[k]
    decreases n
  {
    if n > 0 {
      AsMapOfEntries(m, keys, n - 1);
      assert Entries(m, keys)[..n][..n - 1] == Entries(m, keys)[..n - 1];
      assert keys[..n] == keys[..n - 1] + [keys[n - 1]];
    }
  }

  /** Reading the report by its own nested counts returns exactly the configuration. */
  lemma ReportRoundTrip(m: Definitions, b: seq<byte>)
    requires Reportable(m) && ReportBytes(m) <= b
    ensures Decoded(b) == m
  {
    hide SortedKeys;
    SortedKeysFacts(m);
    RoundTrip(m, SortedKeys(m), b);
  }

  lemma RoundTrip(m: Definitions, keys: Keys, b: seq<byte>)
    requires Reportable(m) && Reports(m, keys, b) && |keys| < 0x100
    requires forall k :: k in keys <==> k in m
    ensures Decoded(b) == m
  {
    hide Starts, ByteAt, IsStart, DecodeApps, HasAt, Reportable;
    NoneStarted(keys);
    FirstByte(m, keys, b);
    DecodeFrom(m, keys, b, 0, Starts(keys, |keys|));
    hide Reports, Body, AsMap;
    assert keys[..|keys|] == keys;
    assert Entries(m, keys)[0..] == Entries(m, keys)[..|keys|];
    AsMapOfEntries(m, keys, |keys|);
  }

  lemma NoneStarted(keys: Keys)
    ensures Starts(keys, 0) == 0 && (|keys| > 0 ==> IsStart(keys, 0))
  {
  }

  lemma FirstByte(m: Definitions, keys: Keys, b: seq<byte>)
    requires Reports(m, keys, b) && |keys| < 0x100
    ensures ByteAt(b, 0) == Starts(keys, |keys|) && At(m, keys, 0) == 1
  {
    hide ByteAt, Starts, Header, Definition;
    var first := Body(m, keys, 0);
    assert first == [Starts(keys, |keys|)];
    hide Body;
    BodyPrefix(m, keys, 0, |keys|);
    assert b[0..|first|] == Body(m, keys, |keys|)[..|first|];
    HasByte(b, 0, first, 0);
  }

  // ----- the number of groups

  function Apps(keys: Keys, i: nat): set<uint16>
    requires i <= |keys|
  {
    set j | 0 <= j < i :: AppOf(keys[j])
  }

  /** In key order each application is one group. */
  lemma {:induction false} StartsAreApps(keys: Keys, i: nat)
    requires i <= |keys| && Increasing(keys)
    ensures |Apps(keys, i)| == Starts(keys, i)
  {
    if i == 0 {
      assert Apps(keys, 0) == {};
    } else {
      StartsAreApps(keys, i - 1);
      AppsNext(keys, i - 1);
      if IsStart(keys, i - 1) {
        NewApp(keys, i - 1);
      } else {
        OldApp(keys, i - 1);
      }
    }
  }

  lemma OldApp(keys: Keys, i: nat)
    requires i < |keys| && !IsStart(keys, i)
    ensures AppOf(keys[i]) in Apps(keys, i)
  {
    hide AppOf;
    assert AppOf(keys[i]) == AppOf(keys[i - 1]);
  }

  lemma AppsNext(keys: Keys, i: nat)
    requires i < |keys|
    ensures |Apps(keys, i + 1)| == |Apps(keys, i)| + if AppOf(keys[i]) as uint16 in Apps(keys, i) then 0 else 1
  {
    hide AppOf;
    var app: uint16, before := AppOf(keys[i]), Apps(keys, i);
    assert Apps(keys, i + 1) == before + {app};
    assert app in before ==> before + {app} == before;
  }

  lemma NewApp(keys: Keys, i: nat)
    requires i < |keys| && Increasing(keys) && IsStart(keys, i)
    ensures AppOf(keys[i]) !in Apps(keys, i)
  {
    forall j | 0 <= j < i
      ensures AppOf(keys[j]) < AppOf(keys[i])
    {
      assert keys[j] <= keys[i - 1] < keys[i];
    }
  }

  /** There are no more applications, and so no more groups, than controlled applications. */
  lemma GroupsAreControlled(m: Definitions, controlled: seq<uint16>)
    requires OnlyControlled(m, controlled)
    ensures Starts(SortedKeys(m), |SortedKeys(m)|) == |AppsIn(m)| <= |controlled|
  {
    hide SortedKeys, Starts;
    ReportLength(m);
    FewValues(AppsIn(m), controlled);
  }

  lemma {:induction false} FewValues(values: set<uint16>, list: seq<uint16>)
    requires forall x :: x in values ==> x in list
    ensures |values| <= |list|
    decreases |list|
  {
    if list == [] {
      assert values == {};
    } else {
      var n := |list| - 1;
      assert list == list[..n] + [list[n]];
      FewValues(values - {list[n]}, list[..n]);
      assert values <= (values - {list[n]}) + {list[n]};
    }
  }
}
