/**
 The header encoder: the closed set of Trino client header fields, the fixed
 name each one is sent under, the serialization of the session bag, and the
 builder that keeps the fields in insertion order and writes them onto an
 outgoing request.
 */
module Headers {
  import opened Strings
  import opened Http

  /** One protocol header field and the value it carries. */
  datatype HeaderField =
    | User(val: string)
    | Source(val: string)
    | Catalog(val: string)
    | Schema(val: string)
    | TraceToken(val: string)
    | Session(session: map<string, string>)
    | TransactionId(val: string)
    | ClientInfo(val: string)
    | ClientTag(val: string)
  {
    /** The header-name suffix of the field, after the protocol prefix; each is a
        valid header-name token. */
    function GetKey(): (k: string)
      ensures IsToken(k)
    {
      match this
      case User(_) => "User"
      case Source(_) => "Source"
      case Catalog(_) => "Catalog"
      case Schema(_) => "Schema"
      case TraceToken(_) => "Trace-Token"
      case Session(_) => "Session"
      case TransactionId(_) => "Transaction-Id"
      case ClientInfo(_) => "Client-Info"
      case ClientTag(_) => "Client-Tags"
    }
  }

  /** `f` and `g` are built by the same constructor (whatever they carry). */
  predicate SameVariant(f: HeaderField, g: HeaderField)
  {
    || (f.User? && g.User?)
    || (f.Source? && g.Source?)
    || (f.Catalog? && g.Catalog?)
    || (f.Schema? && g.Schema?)
    || (f.TraceToken? && g.TraceToken?)
    || (f.Session? && g.Session?)
    || (f.TransactionId? && g.TransactionId?)
    || (f.ClientInfo? && g.ClientInfo?)
    || (f.ClientTag? && g.ClientTag?)
  }

  /** The full header name a field is emitted under; it is always a valid header
      name, so the request builder never rejects it. */
  function HeaderName(f: HeaderField): (n: string)
    ensures IsToken(n)
  {
    TokenConcat(HeaderBuilder.GetPrefix(), f.GetKey());
    HeaderBuilder.GetPrefix() + f.GetKey()
  }

  /** Every name starts with the protocol prefix, and the rest of it is the field's key. */
  lemma HeaderNameShape(f: HeaderField)
    ensures |HeaderName(f)| > |"X-Trino-"|
    ensures HeaderName(f)[..|"X-Trino-"|] == "X-Trino-"
    ensures HeaderName(f)[|"X-Trino-"|..] == f.GetKey()
  {
  }

  lemma NameLiterals()
    ensures "X-Trino-" + "User" == "X-Trino-User"
    ensures "X-Trino-" + "Source" == "X-Trino-Source"
    ensures "X-Trino-" + "Catalog" == "X-Trino-Catalog"
    ensures "X-Trino-" + "Schema" == "X-Trino-Schema"
    ensures "X-Trino-" + "Trace-Token" == "X-Trino-Trace-Token"
    ensures "X-Trino-" + "Session" == "X-Trino-Session"
    ensures "X-Trino-" + "Transaction-Id" == "X-Trino-Transaction-Id"
    ensures "X-Trino-" + "Client-Info" == "X-Trino-Client-Info"
    ensures "X-Trino-" + "Client-Tags" == "X-Trino-Client-Tags"
  {
  }

  /** The nine header names, in full. */
  lemma HeaderNameTable(f: HeaderField)
    ensures f.User? ==> HeaderName(f) == "X-Trino-User"
    ensures f.Source? ==> HeaderName(f) == "X-Trino-Source"
    ensures f.Catalog? ==> HeaderName(f) == "X-Trino-Catalog"
    ensures f.Schema? ==> HeaderName(f) == "X-Trino-Schema"
    ensures f.TraceToken? ==> HeaderName(f) == "X-Trino-Trace-Token"
    ensures f.Session? ==> HeaderName(f) == "X-Trino-Session"
    ensures f.TransactionId? ==> HeaderName(f) == "X-Trino-Transaction-Id"
    ensures f.ClientInfo? ==> HeaderName(f) == "X-Trino-Client-Info"
    ensures f.ClientTag? ==> HeaderName(f) == "X-Trino-Client-Tags"
  {
    NameLiterals();
  }

  /** Two fields share a key, and so a header name, exactly when they are the same variant. */
  lemma HeaderNameDeterminesVariant(f: HeaderField, g: HeaderField)
    ensures f.GetKey() == g.GetKey() <==> SameVariant(f, g)
    ensures HeaderName(f) == HeaderName(g) <==> SameVariant(f, g)
  {
    var n := |"X-Trino-"|;
    if HeaderName(f) == HeaderName(g) {
      HeaderNameShape(f);
      HeaderNameShape(g);
      assert f.GetKey() == HeaderName(f)[n..] == HeaderName(g)[n..] == g.GetKey();
    }
    if f.GetKey() == g.GetKey() {
      var k := f.GetKey();
      assert |k| > 0;
      match f
      case User(_) => assert k[1] == 's';
      case Source(_) => assert k[0] == 'S' && k[1] == 'o';
      case Catalog(_) => assert k[1] == 'a';
      case Schema(_) => assert k[1] == 'c';
      case TraceToken(_) => assert k[1] == 'r' && |k| == 11;
      case Session(_) => assert k[1] == 'e';
      case TransactionId(_) => assert k[1] == 'r' && |k| == 14;
      case ClientInfo(_) => assert k[7] == 'I';
      case ClientTag(_) => assert k[7] == 'T';
    }
  }

  /** One session entry as it appears in the header value: the key, "=", then the
      value, each readable back at its place. */
  function Format(key: string, val: string): (e: string)
    ensures |e| == |key| + 1 + |val|
    ensures e[..|key|] == key && e[|key|] == '=' && e[|key| + 1..] == val
  {
    key + "=" + val
  }

  /** With no "=" in the keys, an entry tells its key and value apart: the first
      "=" ends the key. */
  lemma FormatInjective(k1: string, v1: string, k2: string, v2: string)
    requires '=' !in k1 && '=' !in k2
    requires Format(k1, v1) == Format(k2, v2)
    ensures k1 == k2 && v1 == v2
  {
  }

  /** Some key of a non-empty map: taking it out leaves a smaller map. */
  ghost function PickKey(m: map<string, string>): (k: string)
    requires |m| > 0
    ensures k in m && |m - {k}| == |m| - 1
  {
    var k :| k in m;
    assert (m - {k}).Keys == m.Keys - {k};
    k
  }

  /** The formatted entries of a session map, with multiplicity; two different
      pairs can format to the same string ("a=b" with "c", "a" with "b=c"). */
  ghost function EntryBag(m: map<string, string>): multiset<string>
    decreases |m|
  {
    if |m| == 0 then multiset{}
    else
      var k := PickKey(m);
      multiset{Format(k, m[k])} + EntryBag(m - {k})
  }

  /** One string per entry. */
  lemma {:induction false} EntryBagSize(m: map<string, string>)
    ensures |EntryBag(m)| == |m|
    decreases |m|
  {
    if |m| > 0 {
      EntryBagSize(m - {PickKey(m)});
    }
  }

  /** Whichever key is taken out first, the bag is that entry plus the bag of the rest. */
  lemma {:induction false} EntryBagRemove(m: map<string, string>, k: string)
    requires k in m
    ensures EntryBag(m) == multiset{Format(k, m[k])} + EntryBag(m - {k})
    decreases |m|
  {
    var j := PickKey(m);
    if j != k {
      var mj, mk := m - {j}, m - {k};
      assert mk.Keys == m.Keys - {k};
      assert |mk| == |m| - 1;
      assert k in mj && mj[k] == m[k];
      assert j in mk && mk[j] == m[j];
      var rest := mj - {k};
      assert rest == mk - {j};
      var fj, fk := Format(j, m[j]), Format(k, m[k]);
      assert EntryBag(m) == multiset{fj} + EntryBag(mj);
      EntryBagRemove(mj, k);
      assert EntryBag(mj) == multiset{fk} + EntryBag(rest);
      EntryBagRemove(mk, j);
      assert EntryBag(mk) == multiset{fj} + EntryBag(rest);
    }
  }

  /** A string is in the bag exactly when it is the formatted entry of some key. */
  lemma {:induction false} EntryBagMembers(m: map<string, string>, e: string)
    ensures e in EntryBag(m) <==> exists k :: k in m && e == Format(k, m[k])
    decreases |m|
  {
    if |m| > 0 {
      var k := PickKey(m);
      EntryBagMembers(m - {k}, e);
      if e in EntryBag(m) && e != Format(k, m[k]) {
        var j :| j in m - {k} && e == Format(j, (m - {k})[j]);
        assert j in m && e == Format(j, m[j]);
      }
      if e !in EntryBag(m) {
        forall j | j in m ensures e != Format(j, m[j]) {
          if j != k { assert j in m - {k}; }
        }
      }
    }
  }

  /** The value of the `Session` header: the entries sorted, then joined with ",". */
  ghost function SessionValue(m: map<string, string>): string
  {
    Join(SortBag(EntryBag(m)), ",")
  }

  /** An empty session is serialized as the empty string. */
  lemma SessionEmpty()
    ensures SessionValue(map[]) == ""
  {
    assert SortBag(EntryBag(map[])) == [];
  }

  /** The empty session's value splits into one empty segment, not zero segments. */
  lemma SessionEmptySplit()
    ensures Split(SessionValue(map[]), ',') == [""]
  {
    SessionEmpty();
  }

  /** When no key or value holds a ",", the session value reads back as one segment
      per entry, in ascending order, each segment being "key=value" of some entry
      and each entry giving a segment. */
  lemma SessionSegments(m: map<string, string>)
    requires |m| > 0
    requires forall k :: k in m ==> ',' !in k && ',' !in m[k]
    ensures var segs := Split(SessionValue(m), ',');
      && |segs| == |m|
      && Sorted(segs)
      && multiset(segs) == EntryBag(m)
      && (forall i :: 0 <= i < |segs| ==> exists k :: k in m && segs[i] == Format(k, m[k]))
      && (forall k :: k in m ==> Format(k, m[k]) in segs)
  {
    var parts := SortBag(EntryBag(m));
    EntryBagSize(m);
    SortedEntriesAreEntries(m);
    EntriesAreSorted(m);
    SplitJoin(parts, ',');
  }

  /** Each string of the sorted bag is some entry of `m`, formatted. */
  lemma SortedEntriesAreEntries(m: map<string, string>)
    requires forall k :: k in m ==> ',' !in k && ',' !in m[k]
    ensures forall i :: 0 <= i < |SortBag(EntryBag(m))| ==>
      ',' !in SortBag(EntryBag(m))[i] && exists k :: k in m && SortBag(EntryBag(m))[i] == Format(k, m[k])
  {
    var parts := SortBag(EntryBag(m));
    forall i | 0 <= i < |parts| ensures ',' !in parts[i] && exists k :: k in m && parts[i] == Format(k, m[k]) {
      assert parts[i] in multiset(parts);
      EntryBagMembers(m, parts[i]);
      var k :| k in m && parts[i] == Format(k, m[k]);
      FormatWithout(k, m[k], ',');
    }
  }

  /** A character that is neither "=" nor in the key or the value is not in the entry. */
  lemma FormatWithout(key: string, val: string, c: char)
    requires c != '=' && c !in key && c !in val
    ensures c !in Format(key, val)
  {
  }

  /** Each entry of `m`, formatted, is in the sorted bag. */
  lemma EntriesAreSorted(m: map<string, string>)
    ensures forall k :: k in m ==> Format(k, m[k]) in SortBag(EntryBag(m))
  {
    var parts := SortBag(EntryBag(m));
    forall k | k in m ensures Format(k, m[k]) in parts {
      EntryBagMembers(m, Format(k, m[k]));
      assert Format(k, m[k]) in multiset(parts);
    }
  }

  /** Adding an entry under a new key adds its formatted string to the bag. */
  lemma EntryBagAdd(m: map<string, string>, k: string, v: string)
    requires k !in m
    ensures EntryBag(m[k := v]) == multiset{Format(k, v)} + EntryBag(m)
  {
    assert m[k := v] - {k} == m;
    EntryBagRemove(m[k := v], k);
  }

  /** A session of one entry is that entry, formatted. */
  lemma SessionOne(k: string, v: string)
    ensures SessionValue(map[k := v]) == Format(k, v)
  {
    EntryBagAdd(map[], k, v);
    assert EntryBag(map[k := v]) == multiset([Format(k, v)]);
    SortedIsSortBag([Format(k, v)]);
  }

  /** A session of two entries is the two formatted entries, the smaller first. */
  lemma SessionTwo(k1: string, v1: string, k2: string, v2: string)
    requires k1 != k2
    requires LessEq(Format(k1, v1), Format(k2, v2))
    ensures SessionValue(map[k2 := v2, k1 := v1]) == Format(k1, v1) + "," + Format(k2, v2)
  {
    var sorted := [Format(k1, v1), Format(k2, v2)];
    EntryBagTwo(k1, v1, k2, v2);
    assert Sorted(sorted);
    SortedIsSortBag(sorted);
    assert SortBag(EntryBag(map[k2 := v2, k1 := v1])) == sorted;
    JoinTwo(sorted[0], sorted[1], ",");
  }

  lemma EntryBagTwo(k1: string, v1: string, k2: string, v2: string)
    requires k1 != k2
    ensures EntryBag(map[k2 := v2, k1 := v1]) == multiset([Format(k1, v1), Format(k2, v2)])
  {
    EntryBagAdd(map[], k2, v2);
    assert EntryBag(map[k2 := v2]) == multiset{Format(k2, v2)};
    EntryBagAdd(map[k2 := v2], k1, v1);
  }

  /** The example of the encoder's own test: the value does not depend on the order
      the entries were given in. */
  lemma SessionExample()
    ensures SessionValue(map["key2" := "value2", "key1" := "value1"]) == "key1=value1,key2=value2"
  {
    ExampleOrdered();
    ExampleFormatted();
    SessionTwo("key1", "value1", "key2", "value2");
  }

  lemma ExampleFormatted()
    ensures Format("key1", "value1") == "key1=value1"
    ensures Format("key2", "value2") == "key2=value2"
    ensures "key1=value1" + "," + "key2=value2" == "key1=value1,key2=value2"
  {
  }

  lemma ExampleOrdered()
    ensures LessEq("key1=value1", "key2=value2")
  {
    assert LessEq("1=value1", "2=value2");
    assert LessEq("y1=value1", "y2=value2");
    assert LessEq("ey1=value1", "ey2=value2");
  }

  /** Nothing is escaped: a "," inside a value makes two different sessions
      serialize to the same header value. */
  lemma SessionAmbiguous()
    ensures map["a" := "b,c=d"] != map["c" := "d", "a" := "b"]
    ensures SessionValue(map["a" := "b,c=d"]) == SessionValue(map["c" := "d", "a" := "b"]) == "a=b,c=d"
  {
    assert map["a" := "b,c=d"]["a"] != "b";
    SessionOne("a", "b,c=d");
    AmbiguousFormatted();
    SessionTwo("a", "b", "c", "d");
  }

  lemma AmbiguousFormatted()
    ensures Format("a", "b,c=d") == "a=b,c=d"
    ensures Format("a", "b") == "a=b" && Format("c", "d") == "c=d"
    ensures "a=b" + "," + "c=d" == "a=b,c=d"
    ensures LessEq("a=b", "c=d")
  {
  }

  /** The sort is on the formatted entries, not on the keys: "a-=y" comes before
      "a=x" because "-" is below "=", although the key "a" is below "a-". */
  lemma SessionSortsEntriesNotKeys()
    ensures LessEq("a", "a-") && !LessEq("a-", "a")
    ensures SessionValue(map["a" := "x", "a-" := "y"]) == "a-=y,a=x"
  {
    EntryOrderLiterals();
    SessionTwo("a-", "y", "a", "x");
  }

  lemma EntryOrderLiterals()
    ensures Format("a-", "y") == "a-=y" && Format("a", "x") == "a=x"
    ensures "a-=y" + "," + "a=x" == "a-=y,a=x"
    ensures LessEq("a-=y", "a=x")
    ensures LessEq("a", "a-") && !LessEq("a-", "a")
  {
    assert LessEq("-=y", "=x");
    assert LessEq("", "-");
  }

  /** The wire value of a field: the carried string for a scalar field, the
      serialized bag for `Session`. */
  ghost function ValueOf(f: HeaderField): string
  {
    match f
    case User(v) => v
    case Source(v) => v
    case Catalog(v) => v
    case Schema(v) => v
    case TraceToken(v) => v
    case Session(s) => SessionValue(s)
    case TransactionId(v) => v
    case ClientInfo(v) => v
    case ClientTag(v) => v
  }

  /** The header pairs a list of fields is written as, one per field, in order. */
  ghost function Pairs(fields: seq<HeaderField>): seq<Header>
    decreases |fields|
  {
    if |fields| == 0 then []
    else [(HeaderName(fields[0]), ValueOf(fields[0]))] + Pairs(fields[1..])
  }

  /** One pair per field. */
  lemma {:induction false} PairsLength(fields: seq<HeaderField>)
    ensures |Pairs(fields)| == |fields|
    decreases |fields|
  {
    if |fields| > 0 {
      PairsLength(fields[1..]);
    }
  }

  /** One pair per field, and the i-th pair is the i-th field's prefixed name and
      its value: the carried string itself for a scalar field. */
  lemma {:induction false} PairsAt(fields: seq<HeaderField>, i: int)
    requires 0 <= i < |fields|
    ensures |Pairs(fields)| == |fields|
    ensures Pairs(fields)[i].0 == "X-Trino-" + fields[i].GetKey()
    ensures Pairs(fields)[i].1 == if fields[i].Session? then SessionValue(fields[i].session) else fields[i].val
    decreases |fields|
  {
    if i > 0 {
      PairsAt(fields[1..], i - 1);
    } else if |fields| > 1 {
      PairsAt(fields[1..], 0);
    }
  }

  /** Writing two lists one after the other is writing their concatenation. */
  lemma {:induction false} PairsAppend(xs: seq<HeaderField>, ys: seq<HeaderField>)
    ensures Pairs(xs + ys) == Pairs(xs) + Pairs(ys)
    decreases |xs|
  {
    if |xs| > 0 {
      assert (xs + ys)[1..] == xs[1..] + ys;
      PairsAppend(xs[1..], ys);
    } else {
      assert xs + ys == ys;
    }
  }

  /** The insertion-ordered list of fields to send with a request. */
  class HeaderBuilder {
    var headers: seq<HeaderField>

    /** `HeaderBuilder::new`: no fields yet. */
    constructor ()
      ensures headers == []
    {
      headers := [];
    }

    /** `add_header`: the field goes at the end; the builder itself is handed back. */
    method AddHeader(field: HeaderField) returns (r: HeaderBuilder)
      modifies this
      ensures r == this
      ensures headers == old(headers) + [field]
    {
      headers := headers + [field];
      r := this;
    }

    /** The protocol prefix every header name starts with: a valid token itself. */
    static function GetPrefix(): (p: string)
      ensures IsToken(p) && |p| == 8
    {
      "X-Trino-"
    }

    /** `serialize_session`: collects "key=value" for every entry, in whatever order
        the map yields them, sorts the collection and joins it with ",". */
    static method SerializeSession(session: map<string, string>) returns (s: string)
      ensures s == SessionValue(session)
    {
      var c := CollectEntries(session);
      SortInPlace(c);
      s := Join(c[..], ",");
    }

    /** The `map`/`collect` step of `serialize_session`: one formatted entry per key,
        in an order the map chooses, gathered into a fresh vector. */
    static method CollectEntries(session: map<string, string>) returns (c: array<string>)
      ensures fresh(c)
      ensures multiset(c[..]) == EntryBag(session)
    {
      var rest := session;
      var entries: seq<string> := [];
      while rest != map[]
        invariant multiset(entries) + EntryBag(rest) == EntryBag(session)
        decreases |rest|
      {
        var key :| key in rest;
        var entry := Format(key, rest[key]);
        CollectStep(rest, key, entries, EntryBag(session));
        entries := entries + [entry];
        rest := rest - {key};
      }
      c := new string[|entries|](i => if 0 <= i < |entries| then entries[i] else "");
      assert c[..] == entries;
    }

    /** The value `set_headers` sends for one field: the field's own string, or the
        serialized map for `Session`. */
    static method FieldValue(field: HeaderField) returns (val: string)
      ensures val == ValueOf(field)
    {
      match field {
        case User(v) => val := v;
        case Source(v) => val := v;
        case Catalog(v) => val := v;
        case Schema(v) => val := v;
        case TraceToken(v) => val := v;
        case Session(v) => val := SerializeSession(v);
        case TransactionId(v) => val := v;
        case ClientInfo(v) => val := v;
        case ClientTag(v) => val := v;
      }
    }

    /** `set_headers`: for every field, in insertion order, one more header on the
        request builder; the builder's method and URI are left alone, and the
        field list is only read. */
    method SetHeaders(builder: Builder) returns (b: Builder)
      ensures b.verb == builder.verb && b.uri == builder.uri
      ensures b.headers == builder.headers + Pairs(headers)
    {
      b := builder;
      var i := 0;
      while i < |headers|
        invariant 0 <= i <= |headers|
        invariant b.verb == builder.verb && b.uri == builder.uri
        invariant b.headers == builder.headers + Pairs(headers[..i])
      {
        var header := headers[i];
        var key := HeaderName(header);
        var val := FieldValue(header);
        b := b.WithHeader(key, val);
        PairsStep(headers, i);
        i := i + 1;
      }
      assert headers[..i] == headers;
    }
  }

  /** One turn of the `set_headers` loop: the pairs of the first `i + 1` fields are
      those of the first `i`, then the pair of field `i`. */
  lemma PairsStep(fields: seq<HeaderField>, i: int)
    requires 0 <= i < |fields|
    ensures Pairs(fields[..i + 1]) == Pairs(fields[..i]) + [(HeaderName(fields[i]), ValueOf(fields[i]))]
  {
    assert fields[..i + 1] == fields[..i] + [fields[i]];
    assert Pairs([fields[i]]) == [(HeaderName(fields[i]), ValueOf(fields[i]))];
    PairsAppend(fields[..i], [fields[i]]);
  }

  /** One turn of the collect loop: the entry taken out of the unvisited part of
      the map is the one added to the collection. */
  lemma CollectStep(rest: map<string, string>, k: string, done: seq<string>, all: multiset<string>)
    requires k in rest
    requires multiset(done) + EntryBag(rest) == all
    ensures multiset(done + [Format(k, rest[k])]) + EntryBag(rest - {k}) == all
    ensures |rest - {k}| == |rest| - 1
  {
    EntryBagRemove(rest, k);
    assert (rest - {k}).Keys == rest.Keys - {k};
    assert multiset(done + [Format(k, rest[k])]) == multiset(done) + multiset{Format(k, rest[k])};
  }

  /** The encoder's session test: one `Session` field with two entries becomes one
      `X-Trino-Session` header with the entries in the order of their formatted strings. */
  method SessionHeaderExample() returns (r: Request)
    ensures r.headers == [("X-Trino-Session", "key1=value1,key2=value2")]
  {
    var hb := new HeaderBuilder();
    hb := hb.AddHeader(Session(map["key1" := "value1", "key2" := "value2"]));
    var b := hb.SetHeaders(NewBuilder());
    r := b.WithBody(Empty);
    SessionPairExample();
  }

  lemma SessionPairExample()
    ensures Pairs([Session(map["key1" := "value1", "key2" := "value2"])]) == [("X-Trino-Session", "key1=value1,key2=value2")]
  {
    SessionExample();
    SwapTwo("key1", "value1", "key2", "value2");
    SessionPair(map["key1" := "value1", "key2" := "value2"]);
  }

  lemma SwapTwo(k1: string, v1: string, k2: string, v2: string)
    requires k1 != k2
    ensures map[k1 := v1, k2 := v2] == map[k2 := v2, k1 := v1]
  {
  }

  lemma SessionPair(m: map<string, string>)
    ensures Pairs([Session(m)]) == [("X-Trino-Session", SessionValue(m))]
  {
    PairsAt([Session(m)], 0);
    HeaderNameTable(Session(m));
  }

  /** The encoder's test of the eight scalar fields: each is sent under its own
      name with its string unchanged, in the order the fields were added. */
  method ScalarHeadersExample() returns (r: Request)
    ensures r.headers == [
      ("X-Trino-User", "test user"),
      ("X-Trino-Source", "test source"),
      ("X-Trino-Catalog", "test catalog"),
      ("X-Trino-Schema", "test schema"),
      ("X-Trino-Trace-Token", "test token"),
      ("X-Trino-Transaction-Id", "test id"),
      ("X-Trino-Client-Info", "test info"),
      ("X-Trino-Client-Tags", "test tag")]
  {
    var hb := new HeaderBuilder();
    hb := hb.AddHeader(User("test user"));
    hb := hb.AddHeader(Source("test source"));
    hb := hb.AddHeader(Catalog("test catalog"));
    hb := hb.AddHeader(Schema("test schema"));
    hb := hb.AddHeader(TraceToken("test token"));
    hb := hb.AddHeader(TransactionId("test id"));
    hb := hb.AddHeader(ClientInfo("test info"));
    hb := hb.AddHeader(ClientTag("test tag"));
    var b := hb.SetHeaders(NewBuilder());
    r := b.WithBody(Empty);
    assert hb.headers == [User("test user"), Source("test source"), Catalog("test catalog"),
                          Schema("test schema"), TraceToken("test token"), TransactionId("test id"),
                          ClientInfo("test info"), ClientTag("test tag")];
    ScalarPairs("test user", "test source", "test catalog", "test schema",
                "test token", "test id", "test info", "test tag");
  }

  /** The eight scalar fields, in the order of the encoder's test, for any values:
      each pair is the field's full name and its value unchanged. */
  lemma ScalarPairs(user: string, source: string, catalog: string, schema: string,
                    token: string, id: string, info: string, tag: string)
    ensures Pairs([User(user), Source(source), Catalog(catalog), Schema(schema),
                   TraceToken(token), TransactionId(id), ClientInfo(info), ClientTag(tag)])
         == [("X-Trino-User", user), ("X-Trino-Source", source),
             ("X-Trino-Catalog", catalog), ("X-Trino-Schema", schema),
             ("X-Trino-Trace-Token", token), ("X-Trino-Transaction-Id", id),
             ("X-Trino-Client-Info", info), ("X-Trino-Client-Tags", tag)]
  {
    var fields := [User(user), Source(source), Catalog(catalog), Schema(schema),
                   TraceToken(token), TransactionId(id), ClientInfo(info), ClientTag(tag)];
    PairsAt(fields, 0);
    forall i | 0 <= i < 8
      ensures Pairs(fields)[i] == (HeaderName(fields[i]), fields[i].val)
    {
      PairsAt(fields, i);
    }
    forall i | 0 <= i < 8 {
      HeaderNameTable(fields[i]);
    }
  }
}
