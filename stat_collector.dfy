/** The example `collect_stats`: flat monitoring records grouped by host,
    then by application in the order applications first appear, each
    application's record keys gathered into one dict. */
module StatCollector {
  import opened PyValue

  /** One record: its host, application, key and value fields. */
  datatype Stat = Stat(host: string, application: string, key: string, value: Value)

  /** An application's dict: its name under "application", and its keys. */
  type AppDict = map<string, Value>

  /** The result: each host's application dicts, in first-seen order. */
  type Report = map<string, seq<AppDict>>

  function Last<T>(xs: seq<T>): T
    requires |xs| > 0
  {
    xs[|xs| - 1]
  }

  function Init<T>(xs: seq<T>): seq<T>
    requires |xs| > 0
  {
    xs[..|xs| - 1]
  }

  /** The hosts the records mention. */
  function Hosts(xs: seq<Stat>): set<string>
  {
    set i | 0 <= i < |xs| :: xs[i].host
  }

  /** The distinct applications of host `h`, in the order they first appear. */
  function Apps(xs: seq<Stat>, h: string): (r: seq<string>)
    ensures |r| <= |xs|
    decreases |xs|
  {
    if |xs| == 0 then []
    else
      var prev := Apps(Init(xs), h);
      var s := Last(xs);
      if s.host == h && s.application !in prev then prev + [s.application] else prev
  }

  /** The dict an application starts from. */
  function Fresh(a: string): AppDict
  {
    map["application" := VStr(a)]
  }

  /** Application `a` of host `h`: its fresh dict, updated by that
      application's records in order, so the last record for a key wins. */
  function AppDictOf(xs: seq<Stat>, h: string, a: string): (r: AppDict)
    ensures "application" in r
    decreases |xs|
  {
    if |xs| == 0 then Fresh(a)
    else
      var prev := AppDictOf(Init(xs), h, a);
      var s := Last(xs);
      if s.host == h && s.application == a then prev[s.key := s.value] else prev
  }

  /** Host `h`'s list: one dict per application, in first-seen order. */
  function Row(xs: seq<Stat>, h: string): (r: seq<AppDict>)
    ensures |r| == |Apps(xs, h)| <= |xs|
    ensures forall k :: 0 <= k < |r| ==> "application" in r[k]
  {
    var apps := Apps(xs, h);
    seq(|apps|, k requires 0 <= k < |apps| => AppDictOf(xs, h, apps[k]))
  }

  /** What `collect_stats(xs)` returns. */
  function Grouped(xs: seq<Stat>): (r: Report)
    ensures r.Keys == Hosts(xs)
  {
    map h | h in Hosts(xs) :: Row(xs, h)
  }

  // ---------------------------------------------------------------------
  // The meaning of the grouping
  // ---------------------------------------------------------------------

  /** An application is listed for a host exactly when some record pairs them. */
  lemma {:induction false} AppsMembers(xs: seq<Stat>, h: string, a: string)
    ensures a in Apps(xs, h) <==> exists i :: 0 <= i < |xs| && xs[i].host == h && xs[i].application == a
    decreases |xs|
  {
    if |xs| > 0 {
      AppsMembers(Init(xs), h, a);
      if exists i :: 0 <= i < |xs| - 1 && Init(xs)[i].host == h && Init(xs)[i].application == a {
        var i :| 0 <= i < |xs| - 1 && Init(xs)[i].host == h && Init(xs)[i].application == a;
        assert xs[i] == Init(xs)[i];
      }
      if exists i :: 0 <= i < |xs| && xs[i].host == h && xs[i].application == a {
        var i :| 0 <= i < |xs| && xs[i].host == h && xs[i].application == a;
        if i < |xs| - 1 {
          assert Init(xs)[i] == xs[i];
        }
      }
    }
  }

  /** No application is listed twice for a host. */
  lemma {:induction false} AppsDistinct(xs: seq<Stat>, h: string)
    ensures forall i, j :: 0 <= i < j < |Apps(xs, h)| ==> Apps(xs, h)[i] != Apps(xs, h)[j]
    decreases |xs|
  {
    if |xs| > 0 {
      AppsDistinct(Init(xs), h);
    }
  }

  /** Later records never reorder the applications already listed. */
  lemma {:induction false} AppsGrowByAppending(xs: seq<Stat>, ys: seq<Stat>, h: string)
    ensures Apps(xs, h) <= Apps(xs + ys, h)
    decreases |ys|
  {
    if |ys| == 0 {
      assert xs + ys == xs;
    } else {
      assert Init(xs + ys) == xs + Init(ys);
      AppsGrowByAppending(xs, Init(ys), h);
      var before, mid, after := Apps(xs, h), Apps(xs + Init(ys), h), Apps(xs + ys, h);
      assert mid <= after;
      assert mid == after[..|mid|];
      assert before == mid[..|before|];
      assert before == after[..|before|];
    }
  }

  /** A host without records has no applications. */
  lemma {:induction false} AppsOfAbsentHost(xs: seq<Stat>, h: string)
    requires h !in Hosts(xs)
    ensures Apps(xs, h) == []
    decreases |xs|
  {
    if |xs| > 0 {
      assert Hosts(Init(xs)) <= Hosts(xs) by {
        forall i | 0 <= i < |xs| - 1 ensures Init(xs)[i].host in Hosts(xs) {
          assert Init(xs)[i] == xs[i];
        }
      }
      AppsOfAbsentHost(Init(xs), h);
    }
  }

  /** A record of host `h`, application `a` and key `k`. */
  predicate Sets(s: Stat, h: string, a: string, k: string)
  {
    s.host == h && s.application == a && s.key == k
  }

  /** An application dict holds "application" and exactly the keys of that
      application's records. */
  lemma {:induction false} AppDictKeys(xs: seq<Stat>, h: string, a: string, k: string)
    ensures k in AppDictOf(xs, h, a) <==> k == "application" || exists i :: 0 <= i < |xs| && Sets(xs[i], h, a, k)
    decreases |xs|
  {
    if |xs| > 0 {
      var ys := Init(xs);
      AppDictKeys(ys, h, a, k);
      if exists i :: 0 <= i < |ys| && Sets(ys[i], h, a, k) {
        var i :| 0 <= i < |ys| && Sets(ys[i], h, a, k);
        assert xs[i] == ys[i];
      }
      if exists i :: 0 <= i < |xs| && Sets(xs[i], h, a, k) {
        var i :| 0 <= i < |xs| && Sets(xs[i], h, a, k);
        if i < |ys| {
          assert ys[i] == xs[i];
        }
      }
    }
  }

  /** A key holds the value of the last record that set it. */
  lemma {:induction false} AppDictLastRecordWins(xs: seq<Stat>, h: string, a: string, i: nat)
    requires i < |xs| && xs[i].host == h && xs[i].application == a
    requires forall j :: i < j < |xs| ==> !Sets(xs[j], h, a, xs[i].key)
    ensures xs[i].key in AppDictOf(xs, h, a) && AppDictOf(xs, h, a)[xs[i].key] == xs[i].value
    decreases |xs|
  {
    if i < |xs| - 1 {
      var ys := Init(xs);
      assert ys[i] == xs[i];
      assert !Sets(xs[|xs| - 1], h, a, xs[i].key);
      AppDictLastRecordWins(ys, h, a, i);
    }
  }

  /** "application" holds the application's name unless one of its records
      has that key. */
  lemma {:induction false} AppDictName(xs: seq<Stat>, h: string, a: string)
    requires forall i :: 0 <= i < |xs| ==> !Sets(xs[i], h, a, "application")
    ensures "application" in AppDictOf(xs, h, a) && AppDictOf(xs, h, a)["application"] == VStr(a)
    decreases |xs|
  {
    if |xs| > 0 {
      var ys := Init(xs);
      assert !Sets(xs[|xs| - 1], h, a, "application");
      assert forall i :: 0 <= i < |ys| ==> ys[i] == xs[i];
      AppDictName(ys, h, a);
    }
  }

  /** Hosts are exactly the hosts of the records, and each host's list has
      one dict per listed application, holding that application's name
      unless one of its records has the key "application". */
  lemma GroupedShape(xs: seq<Stat>, h: string)
    ensures h in Grouped(xs) <==> exists i :: 0 <= i < |xs| && xs[i].host == h
    ensures h in Grouped(xs) ==>
              |Grouped(xs)[h]| == |Apps(xs, h)| &&
              forall k :: 0 <= k < |Apps(xs, h)| ==> Grouped(xs)[h][k] == AppDictOf(xs, h, Apps(xs, h)[k])
  {
  }

  /** No records, no hosts. */
  lemma GroupedEmpty()
    ensures Grouped([]) == map[]
  {
  }

  // ---------------------------------------------------------------------
  // One record more
  // ---------------------------------------------------------------------

  lemma HostsSnoc(xs: seq<Stat>, s: Stat)
    ensures Hosts(xs + [s]) == Hosts(xs) + {s.host}
  {
    var ys := xs + [s];
    forall h | h in Hosts(ys) ensures h in Hosts(xs) + {s.host} {
      var i :| 0 <= i < |ys| && ys[i].host == h;
      if i < |xs| {
        assert ys[i] == xs[i];
      }
    }
    forall h | h in Hosts(xs) ensures h in Hosts(ys) {
      var i :| 0 <= i < |xs| && xs[i].host == h;
      assert ys[i] == xs[i];
    }
    assert ys[|xs|] == s;
  }

  /** Before its first record, an application's dict is the fresh one. */
  lemma {:induction false} AppDictUntouched(xs: seq<Stat>, h: string, a: string)
    requires a !in Apps(xs, h)
    ensures AppDictOf(xs, h, a) == Fresh(a)
    decreases |xs|
  {
    if |xs| > 0 {
      AppDictUntouched(Init(xs), h, a);
    }
  }

  /** Host `h`'s list once application `a` is registered: a fresh dict is
      appended for an application not seen before. */
  function Registered(xs: seq<Stat>, h: string, a: string): seq<AppDict>
  {
    Row(xs, h) + if a in Apps(xs, h) then [] else [Fresh(a)]
  }

  /** A record's host gains its application, if new, at the end. */
  lemma AppsSnoc(xs: seq<Stat>, s: Stat)
    ensures Apps(xs + [s], s.host) == Apps(xs, s.host) + if s.application in Apps(xs, s.host) then [] else [s.application]
  {
    assert Init(xs + [s]) == xs;
  }

  /** A record updates, in its host's list with its application registered,
      the dict at that application's position and nothing else. */
  lemma RowSnoc(xs: seq<Stat>, s: Stat, j: nat)
    requires j < |Apps(xs + [s], s.host)| && Apps(xs + [s], s.host)[j] == s.application
    ensures j < |Registered(xs, s.host, s.application)|
    ensures Row(xs + [s], s.host) ==
              Registered(xs, s.host, s.application)[j := Registered(xs, s.host, s.application)[j][s.key := s.value]]
  {
    var ys := xs + [s];
    var h, a := s.host, s.application;
    assert Init(ys) == xs;
    AppsSnoc(xs, s);
    AppsDistinct(ys, h);
    if a !in Apps(xs, h) {
      AppDictUntouched(xs, h, a);
    }
    var mid := Registered(xs, h, a);
    forall k | 0 <= k < |Apps(ys, h)|
      ensures Row(ys, h)[k] == mid[j := mid[j][s.key := s.value]][k]
    {
      if k != j {
        assert Apps(ys, h)[k] != a;
      }
    }
  }

  /** `seen[host]`: each application's position in the host's list. */
  ghost predicate Indexes(m: map<string, nat>, apps: seq<string>)
  {
    (forall a :: a in m <==> a in apps) &&
    (forall a :: a in m ==> m[a] < |apps| && apps[m[a]] == a)
  }

  /** The loop's invariant after the records `xs`. */
  ghost predicate Collected(xs: seq<Stat>, ret: Report, seen: map<string, map<string, nat>>)
  {
    ret.Keys == Hosts(xs) && seen.Keys == ret.Keys &&
    (forall h :: h in ret ==> ret[h] == Row(xs, h)) &&
    (forall h :: h in seen ==> Indexes(seen[h], Apps(xs, h)))
  }

  /** Before its first record, a host's list is empty and has no positions. */
  lemma AbsentHostRow(xs: seq<Stat>, h: string)
    requires h !in Hosts(xs)
    ensures Row(xs, h) == [] && Indexes(map[], Apps(xs, h))
  {
    AppsOfAbsentHost(xs, h);
  }

  /** The invariant after one record more: the record's host has its new
      list and positions, and every other host keeps its own. */
  lemma CollectedSnoc(xs: seq<Stat>, s: Stat, ret: Report, seen: map<string, map<string, nat>>,
                      apps: seq<AppDict>, positions: map<string, nat>)
    requires Collected(xs, ret, seen)
    requires apps == Row(xs + [s], s.host) && Indexes(positions, Apps(xs + [s], s.host))
    ensures Collected(xs + [s], ret[s.host := apps], seen[s.host := positions])
  {
    var ret', seen' := ret[s.host := apps], seen[s.host := positions];
    HostsSnoc(xs, s);
    forall h | h in ret' ensures ret'[h] == Row(xs + [s], h) {
      if h != s.host {
        OtherHostsSnoc(xs, s, h);
      }
    }
    forall h | h in seen' ensures Indexes(seen'[h], Apps(xs + [s], h)) {
      if h != s.host {
        OtherHostsSnoc(xs, s, h);
      }
    }
  }


  /** Registering an application not seen before appends its fresh dict
      and records its position. */
  lemma RegisterNew(xs: seq<Stat>, s: Stat, positions: map<string, nat>)
    requires Indexes(positions, Apps(xs, s.host)) && s.application !in positions
    ensures Registered(xs, s.host, s.application) == Row(xs, s.host) + [Fresh(s.application)]
    ensures Indexes(positions[s.application := |Row(xs, s.host)|], Apps(xs + [s], s.host))
  {
    AppsSnoc(xs, s);
  }

  /** Registering an application already seen changes nothing. */
  lemma RegisterKnown(xs: seq<Stat>, s: Stat, positions: map<string, nat>)
    requires Indexes(positions, Apps(xs, s.host)) && s.application in positions
    ensures Registered(xs, s.host, s.application) == Row(xs, s.host)
    ensures Indexes(positions, Apps(xs + [s], s.host))
  {
    AppsSnoc(xs, s);
  }

  lemma UpdateTwice<K, V>(m: map<K, V>, k: K, v: V, w: V)
    ensures m[k := v][k := w] == m[k := w]
  {
  }

  /** Once every record is in, the invariant is the result. */
  lemma CollectedIsGrouped(xs: seq<Stat>, ret: Report, seen: map<string, map<string, nat>>)
    requires Collected(xs, ret, seen)
    ensures ret == Grouped(xs)
  {
  }

  /** Other hosts are untouched by a record. */
  lemma OtherHostsSnoc(xs: seq<Stat>, s: Stat, h: string)
    requires h != s.host
    ensures Apps(xs + [s], h) == Apps(xs, h) && Row(xs + [s], h) == Row(xs, h)
  {
    var ys := xs + [s];
    assert Init(ys) == xs;
    forall a ensures AppDictOf(ys, h, a) == AppDictOf(xs, h, a) {
    }
  }

  // ---------------------------------------------------------------------
  // The loop
  // ---------------------------------------------------------------------

  /** `collect_stats(stats)`. `seen[host][app]` is the position of the
      application's dict in `ret[host]`, which the loop updates in place. */
  method CollectStats(stats: seq<Stat>) returns (ret: Report)
    ensures ret == Grouped(stats)
  {
    ret := map[];
    var seen: map<string, map<string, nat>> := map[];
    for i := 0 to |stats|
      invariant Collected(stats[..i], ret, seen)
    {
      ghost var xs := stats[..i];
      var stat := stats[i];
      assert stats[..i + 1] == xs + [stat];
      ghost var ret0, seen0 := ret, seen;
      var host, key, value, appname := stat.host, stat.key, stat.value, stat.application;
      if host !in ret {
        AbsentHostRow(xs, host);
        ret := ret[host := []];
        seen := seen[host := map[]];
      }
      var apps: seq<AppDict>, positions: map<string, nat> := ret[host], seen[host];
      if appname !in positions {
        RegisterNew(xs, stat, positions);
        positions := positions[appname := |apps|];
        apps := apps + [Fresh(appname)];
      } else {
        RegisterKnown(xs, stat, positions);
      }
      var j := positions[appname];
      RowSnoc(xs, stat, j);
      apps := apps[j := apps[j][key := value]];
      CollectedSnoc(xs, stat, ret0, seen0, apps, positions);
      if host !in ret0 {
        UpdateTwice(ret0, host, [], apps);
        UpdateTwice(seen0, host, map[], positions);
      }
      ret := ret[host := apps];
      seen := seen[host := positions];
    }
    assert stats[..|stats|] == stats;
    CollectedIsGrouped(stats, ret, seen);
  }

  // ---------------------------------------------------------------------
  // The example's data
  // ---------------------------------------------------------------------

  function Data(): seq<Stat>
  {
    [ Stat("app-1", "apache", "rpm", VInt(70)),
      Stat("app-1", "apache", "rss", VInt(115000)),
      Stat("app-1", "memcached", "objects", VInt(1405)),
      Stat("app-1", "memcached", "rss", VInt(245000)),
      Stat("app-2", "apache", "rpm", VInt(3)),
      Stat("app-2", "apache", "rss", VInt(128)),
      Stat("app-2", "memcached", "objects", VInt(100)),
      Stat("app-2", "memcached", "rss", VInt(2048)) ]
  }

  function Expected(): Report
  {
    map[
      "app-1" := [ map["application" := VStr("apache"), "rpm" := VInt(70), "rss" := VInt(115000)],
                   map["application" := VStr("memcached"), "objects" := VInt(1405), "rss" := VInt(245000)] ],
      "app-2" := [ map["application" := VStr("apache"), "rpm" := VInt(3), "rss" := VInt(128)],
                   map["application" := VStr("memcached"), "objects" := VInt(100), "rss" := VInt(2048)] ] ]
  }

  /** A host's list depends only on its own records: records of other
      hosts, before or after, change nothing. */
  lemma {:induction false} OtherHostsAfter(xs: seq<Stat>, ys: seq<Stat>, h: string, a: string)
    requires forall i :: 0 <= i < |ys| ==> ys[i].host != h
    ensures Apps(xs + ys, h) == Apps(xs, h) && AppDictOf(xs + ys, h, a) == AppDictOf(xs, h, a)
    decreases |ys|
  {
    if |ys| == 0 {
      assert xs + ys == xs;
    } else {
      assert Init(xs + ys) == xs + Init(ys);
      OtherHostsAfter(xs, Init(ys), h, a);
    }
  }

  lemma {:induction false} OtherHostsBefore(xs: seq<Stat>, ys: seq<Stat>, h: string, a: string)
    requires h !in Hosts(xs)
    ensures Apps(xs + ys, h) == Apps(ys, h) && AppDictOf(xs + ys, h, a) == AppDictOf(ys, h, a)
    decreases |ys|
  {
    if |ys| == 0 {
      assert xs + ys == xs;
      AppsOfAbsentHost(xs, h);
      AppDictUntouched(xs, h, a);
    } else {
      assert Init(xs + ys) == xs + Init(ys);
      assert Last(xs + ys) == Last(ys);
      OtherHostsBefore(xs, Init(ys), h, a);
    }
  }

  /** The same for a host's whole list. */
  lemma RowIgnoresOtherHosts(xs: seq<Stat>, ys: seq<Stat>, h: string)
    ensures (forall i :: 0 <= i < |ys| ==> ys[i].host != h) ==> Row(xs + ys, h) == Row(xs, h)
    ensures h !in Hosts(xs) ==> Row(xs + ys, h) == Row(ys, h)
  {
    if forall i :: 0 <= i < |ys| ==> ys[i].host != h {
      OtherHostsAfter(xs, ys, h, "");
      forall a ensures AppDictOf(xs + ys, h, a) == AppDictOf(xs, h, a) {
        OtherHostsAfter(xs, ys, h, a);
      }
    }
    if h !in Hosts(xs) {
      OtherHostsBefore(xs, ys, h, "");
      forall a ensures AppDictOf(xs + ys, h, a) == AppDictOf(ys, h, a) {
        OtherHostsBefore(xs, ys, h, a);
      }
    }
  }

  /** One host's records in the example: two of apache, then two of memcached. */
  function Block(h: string, rpm: int, apacheRss: int, objects: int, memcachedRss: int): seq<Stat>
  {
    [ Stat(h, "apache", "rpm", VInt(rpm)),
      Stat(h, "apache", "rss", VInt(apacheRss)),
      Stat(h, "memcached", "objects", VInt(objects)),
      Stat(h, "memcached", "rss", VInt(memcachedRss)) ]
  }

  function BlockRow(rpm: int, apacheRss: int, objects: int, memcachedRss: int): seq<AppDict>
  {
    [ map["application" := VStr("apache"), "rpm" := VInt(rpm), "rss" := VInt(apacheRss)],
      map["application" := VStr("memcached"), "objects" := VInt(objects), "rss" := VInt(memcachedRss)] ]
  }

  lemma BlockGroups(h: string, rpm: int, apacheRss: int, objects: int, memcachedRss: int)
    ensures Row(Block(h, rpm, apacheRss, objects, memcachedRss), h) == BlockRow(rpm, apacheRss, objects, memcachedRss)
  {
    var xs := Block(h, rpm, apacheRss, objects, memcachedRss);
    var row := BlockRow(rpm, apacheRss, objects, memcachedRss);
    assert Init(xs) == xs[..3] && Init(xs[..3]) == xs[..2] && Init(xs[..2]) == xs[..1] && Init(xs[..1]) == [];
    assert Last(xs[..1]) == xs[0] && Last(xs[..2]) == xs[1] && Last(xs[..3]) == xs[2];
    assert Apps(xs[..1], h) == ["apache"];
    assert Apps(xs[..2], h) == ["apache"];
    assert Apps(xs[..3], h) == ["apache", "memcached"];
    assert Apps(xs, h) == ["apache", "memcached"];
    assert AppDictOf(xs[..1], h, "apache") == Fresh("apache")["rpm" := VInt(rpm)];
    assert AppDictOf(xs[..2], h, "apache") == row[0];
    assert AppDictOf(xs, h, "apache") == row[0];
    assert AppDictOf(xs[..1], h, "memcached") == Fresh("memcached");
    assert AppDictOf(xs[..2], h, "memcached") == Fresh("memcached");
    assert AppDictOf(xs[..3], h, "memcached") == Fresh("memcached")["objects" := VInt(objects)];
    assert AppDictOf(xs, h, "memcached") == row[1];
  }

  /** The example's data is one block per host. */
  lemma ExampleBlocks()
    ensures Data() == Block("app-1", 70, 115000, 1405, 245000) + Block("app-2", 3, 128, 100, 2048)
    ensures Hosts(Data()) == {"app-1", "app-2"}
    ensures Hosts(Block("app-1", 70, 115000, 1405, 245000)) == {"app-1"}
  {
    var first := Block("app-1", 70, 115000, 1405, 245000);
    assert first[0].host == "app-1";
    assert Data()[0].host == "app-1" && Data()[4].host == "app-2";
  }

  /** Each host's list in the example. */
  lemma ExampleRows()
    ensures Row(Data(), "app-1") == BlockRow(70, 115000, 1405, 245000)
    ensures Row(Data(), "app-2") == BlockRow(3, 128, 100, 2048)
  {
    var first, second := Block("app-1", 70, 115000, 1405, 245000), Block("app-2", 3, 128, 100, 2048);
    ExampleBlocks();
    BlockGroups("app-1", 70, 115000, 1405, 245000);
    BlockGroups("app-2", 3, 128, 100, 2048);
    RowIgnoresOtherHosts(first, second, "app-1");
    RowIgnoresOtherHosts(first, second, "app-2");
  }

  /** The example's test: the data groups into the expected report. */
  lemma ExampleGroups()
    ensures Grouped(Data()) == Expected()
  {
    ExampleBlocks();
    ExampleRows();
  }
}
