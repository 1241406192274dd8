/**
 * What the button-widget configuration screen computes, stated as values:
 * the service catalog, how a typed service text resolves to a domain and a
 * service, the ordered list of field binders built from a service schema
 * (fresh, and merged with a saved payload on reconfiguration), and the
 * service-data map sent with the widget.
 */
module ButtonFields {
  import opened Wrappers
  import opened Text
  import opened KeyOrder

  const ENTITY_ID := "entity_id"
  /** Schema keys containing this mark are identifiers and go first. */
  const ID_MARK := "_id"

  /**
   * The `target` of a service schema.  Only the boolean `false` means "no
   * target"; an absent target or a target selector both count as present.
   */
  datatype Target = NoTarget | Flag(on: bool) | Selector

  predicate HasTarget(t: Target) {
    t != Flag(false)
  }

  /** A service of the remote catalog and the keys of its field schema. */
  datatype Service = Service(domain: string, service: string, target: Target, fields: set<string>)

  /** One input row of the form: the service text it belongs to, a field name and its value. */
  datatype FieldBinder = FieldBinder(service: string, field: string, value: Option<string>)

  /** The text under which a service is listed: `domain.service`. */
  function ServiceString(s: Service): string {
    s.domain + "." + s.service
  }

  // ---------------------------------------------------------------------
  // The catalog and service-text resolution
  // ---------------------------------------------------------------------

  /** Every catalog key is the service string of the service it maps to. */
  predicate Keyed(services: map<string, Service>) {
    forall k :: k in services ==> k == ServiceString(services[k])
  }

  /**
   * The catalog built from the fetched services, each stored under its
   * service string; a later service with the same string replaces an earlier one.
   */
  function Catalog(fetched: seq<Service>): (m: map<string, Service>)
    ensures Keyed(m)
    ensures forall s :: s in fetched ==> ServiceString(s) in m
    ensures forall k :: k in m ==> m[k] in fetched
  {
    if fetched == [] then map[]
    else
      var last := fetched[|fetched| - 1];
      var m := Catalog(fetched[..|fetched| - 1]);
      assert fetched == fetched[..|fetched| - 1] + [last];
      m[ServiceString(last) := last]
  }

  /** The service of the last fetched entry with a given service string is the one kept. */
  lemma {:induction false} CatalogLastWins(fetched: seq<Service>, i: nat)
    requires i < |fetched|
    requires forall j :: i < j < |fetched| ==> ServiceString(fetched[j]) != ServiceString(fetched[i])
    ensures Catalog(fetched)[ServiceString(fetched[i])] == fetched[i]
    decreases |fetched|
  {
    if i < |fetched| - 1 {
      var init := fetched[..|fetched| - 1];
      CatalogLastWins(init, i);
    }
  }

  /** Loading one more service stores it under its service string. */
  lemma CatalogStep(fetched: seq<Service>, i: nat)
    requires i < |fetched|
    ensures Catalog(fetched[..i + 1]) == Catalog(fetched[..i])[ServiceString(fetched[i]) := fetched[i]]
  {
    assert fetched[..i + 1][..i] == fetched[..i];
  }

  /**
   * The (domain, service) pair a service text stands for: the catalog
   * entry's when the text is a catalog key, otherwise the text before and
   * after its first "."; `None` when neither applies (the click fails).
   */
  function Resolve(services: map<string, Service>, text: string): Option<(string, string)> {
    if text in services then Some((services[text].domain, services[text].service))
    else
      var parts := SplitOnce(text, ".");
      if |parts| == 2 then Some((parts[0], parts[1])) else None
  }

  /**
   * Resolution fails exactly for a text that is neither a catalog key nor
   * holds a "."; a text resolved by splitting is rebuilt by joining its two
   * parts with ".", and its domain holds no ".".
   */
  lemma ResolveSpec(services: map<string, Service>, text: string)
    ensures Resolve(services, text).None? <==> text !in services && '.' !in text
    ensures text in services ==>
      Resolve(services, text) == Some((services[text].domain, services[text].service))
    ensures text !in services && Resolve(services, text).Some? ==>
      var (d, s) := Resolve(services, text).value;
      d + "." + s == text && '.' !in d
  {
    SplitOnceDot(text);
  }

  /**
   * Splitting a service string at its first "." gives back the service's
   * domain and service exactly when the domain holds no ".".
   */
  lemma ServiceStringRoundTrip(svc: Service)
    ensures SplitOnce(ServiceString(svc), ".") == [svc.domain, svc.service] <==> '.' !in svc.domain
  {
    DotRoundTrip(svc.domain, svc.service);
  }

  /**
   * In a catalog built from service strings, looking a text up and splitting
   * it agree whenever the listed domain holds no ".".
   */
  lemma CatalogAgreesWithSplit(services: map<string, Service>, text: string)
    requires Keyed(services) && text in services && '.' !in services[text].domain
    ensures var parts := SplitOnce(text, ".");
      |parts| == 2 && Resolve(services, text) == Some((parts[0], parts[1]))
  {
    ServiceStringRoundTrip(services[text]);
  }

  // ---------------------------------------------------------------------
  // Ordering of the field list
  // ---------------------------------------------------------------------

  /** An identifier key: it contains "_id". */
  predicate IsId(key: string) {
    Contains(key, ID_MARK)
  }

  lemma EntityIdIsId()
    ensures IsId(ENTITY_ID)
  {
    assert ENTITY_ID[6..9] == ID_MARK;
    ContainsAt(ENTITY_ID, ID_MARK, 6);
  }

  function Reverse(s: seq<string>): (r: seq<string>)
    ensures |r| == |s|
    ensures forall i :: 0 <= i < |s| ==> r[i] == s[|s| - 1 - i]
  {
    if s == [] then [] else [s[|s| - 1]] + Reverse(s[..|s| - 1])
  }

  /** The identifier keys of `ks`, in order. */
  function IdKeys(ks: seq<string>): seq<string> {
    if ks == [] then []
    else IdKeys(ks[..|ks| - 1]) + (if IsId(ks[|ks| - 1]) then [ks[|ks| - 1]] else [])
  }

  /** The other keys of `ks`, in order. */
  function PlainKeys(ks: seq<string>): seq<string> {
    if ks == [] then []
    else PlainKeys(ks[..|ks| - 1]) + (if IsId(ks[|ks| - 1]) then [] else [ks[|ks| - 1]])
  }

  /** `IdKeys(ks)` holds identifier keys of `ks` only. */
  lemma {:induction false} IdKeysMembers(ks: seq<string>)
    ensures forall k :: k in IdKeys(ks) ==> IsId(k) && k in ks
    decreases |ks|
  {
    if ks != [] {
      var init := ks[..|ks| - 1];
      IdKeysMembers(init);
      assert forall k :: k in init ==> k in ks;
    }
  }

  /** `PlainKeys(ks)` holds non-identifier keys of `ks` only. */
  lemma {:induction false} PlainKeysMembers(ks: seq<string>)
    ensures forall k :: k in PlainKeys(ks) ==> !IsId(k) && k in ks
    decreases |ks|
  {
    if ks != [] {
      var init := ks[..|ks| - 1];
      PlainKeysMembers(init);
      assert forall k :: k in init ==> k in ks;
    }
  }

  /** Together, `IdKeys(ks)` and `PlainKeys(ks)` hold every key of `ks` as often as `ks` does. */
  lemma {:induction false} KeysPartitionCounts(ks: seq<string>)
    ensures multiset(IdKeys(ks)) + multiset(PlainKeys(ks)) == multiset(ks)
    decreases |ks|
  {
    if ks != [] {
      var init, last := ks[..|ks| - 1], ks[|ks| - 1];
      KeysPartitionCounts(init);
      assert ks == init + [last];
      assert multiset(ks) == multiset(init) + multiset{last};
    }
  }

  /** `IdKeys` and `PlainKeys` split `ks` into its identifier and other keys. */
  lemma KeysPartition(ks: seq<string>)
    ensures forall k :: k in IdKeys(ks) ==> IsId(k) && k in ks
    ensures forall k :: k in PlainKeys(ks) ==> !IsId(k) && k in ks
    ensures multiset(IdKeys(ks)) + multiset(PlainKeys(ks)) == multiset(ks)
  {
    IdKeysMembers(ks);
    PlainKeysMembers(ks);
    KeysPartitionCounts(ks);
  }

  /** Both halves of the partition keep an ascending order. */
  lemma {:induction false} KeysPartitionAscending(ks: seq<string>)
    requires StrictlyAscending(ks)
    ensures StrictlyAscending(IdKeys(ks)) && StrictlyAscending(PlainKeys(ks))
    decreases |ks|
  {
    if ks != [] {
      var init := ks[..|ks| - 1];
      var last := ks[|ks| - 1];
      KeysPartitionAscending(init);
      KeysPartition(init);
      forall k | k in init ensures Below(k, last) {
        var p :| 0 <= p < |init| && init[p] == k;
        assert ks[p] == k;
      }
    }
  }

  /** Form rows for `keys`, all without a value. */
  function Bind(text: string, keys: seq<string>): (bs: seq<FieldBinder>)
    ensures |bs| == |keys|
    ensures forall i :: 0 <= i < |keys| ==> bs[i] == FieldBinder(text, keys[i], None)
  {
    seq(|keys|, i requires 0 <= i < |keys| => FieldBinder(text, keys[i], None))
  }

  /** The field names of a list of rows. */
  function Names(bs: seq<FieldBinder>): (names: seq<string>)
    ensures |names| == |bs|
    ensures forall i :: 0 <= i < |bs| ==> names[i] == bs[i].field
  {
    seq(|bs|, i requires 0 <= i < |bs| => bs[i].field)
  }

  lemma NamesAppend(a: seq<FieldBinder>, b: seq<FieldBinder>)
    ensures Names(a + b) == Names(a) + Names(b)
  {
  }

  lemma NamesBind(text: string, keys: seq<string>)
    ensures Names(Bind(text, keys)) == keys
  {
  }

  /**
   * The list the sorted-keys loop leaves when it starts from `mid` and
   * visits `ks` in order, putting each identifier key at the front and each
   * other key at the back: the identifier keys in reverse visiting order,
   * then `mid`, then the other keys in visiting order.
   */
  function Spread(text: string, ks: seq<string>, mid: seq<FieldBinder>): seq<FieldBinder> {
    Bind(text, Reverse(IdKeys(ks))) + mid + Bind(text, PlainKeys(ks))
  }

  /** One step of the loop: an identifier key is prepended, any other key appended. */
  lemma SpreadSnoc(text: string, ks: seq<string>, k: string, mid: seq<FieldBinder>)
    ensures Spread(text, ks + [k], mid)
      == if IsId(k) then [FieldBinder(text, k, None)] + Spread(text, ks, mid)
         else Spread(text, ks, mid) + [FieldBinder(text, k, None)]
  {
    var ks' := ks + [k];
    assert ks'[..|ks'| - 1] == ks;
    if IsId(k) {
      assert IdKeys(ks') == IdKeys(ks) + [k];
      assert PlainKeys(ks') == PlainKeys(ks);
      assert Reverse(IdKeys(ks')) == [k] + Reverse(IdKeys(ks));
      assert Bind(text, [k] + Reverse(IdKeys(ks))) == [FieldBinder(text, k, None)] + Bind(text, Reverse(IdKeys(ks)));
    } else {
      assert IdKeys(ks') == IdKeys(ks);
      assert PlainKeys(ks') == PlainKeys(ks) + [k];
      assert Bind(text, PlainKeys(ks) + [k]) == Bind(text, PlainKeys(ks)) + [FieldBinder(text, k, None)];
    }
  }

  /**
   * One step of the sorted-keys loop over the keys not in `skip`: visiting
   * `key`, above every key visited so far, either skips it or spreads it.
   */
  lemma SpreadVisit(text: string, done: set<string>, skip: set<string>, key: string, mid: seq<FieldBinder>)
    requires key !in done
    requires forall d :: d in done ==> Below(d, key)
    ensures var before, after := Spread(text, Ascending(done - skip), mid), Spread(text, Ascending((done + {key}) - skip), mid);
      after == if key in skip then before
               else if IsId(key) then [FieldBinder(text, key, None)] + before
               else before + [FieldBinder(text, key, None)]
  {
    if key in skip {
      assert (done + {key}) - skip == done - skip;
    } else {
      AscendingSnoc(done - skip, key);
      assert (done + {key}) - skip == (done - skip) + {key};
      SpreadSnoc(text, Ascending(done - skip), key, mid);
    }
  }

  lemma {:induction false} ReverseCounts(s: seq<string>)
    ensures multiset(Reverse(s)) == multiset(s)
    decreases |s|
  {
    if s != [] {
      var init := s[..|s| - 1];
      ReverseCounts(init);
      assert s == init + [s[|s| - 1]];
    }
  }

  /** The loop adds one row per visited key and keeps every row of `mid`. */
  lemma SpreadCounts(text: string, ks: seq<string>, mid: seq<FieldBinder>)
    ensures multiset(Names(Spread(text, ks, mid))) == multiset(ks) + multiset(Names(mid))
    ensures |Spread(text, ks, mid)| == |ks| + |mid|
  {
    var ids, plain := Bind(text, Reverse(IdKeys(ks))), Bind(text, PlainKeys(ks));
    NamesAppend(ids + mid, plain);
    NamesAppend(ids, mid);
    NamesBind(text, Reverse(IdKeys(ks)));
    NamesBind(text, PlainKeys(ks));
    ReverseCounts(IdKeys(ks));
    KeysPartition(ks);
    assert |multiset(ks)| == |ks|;
    assert |multiset(IdKeys(ks))| + |multiset(PlainKeys(ks))| == |ks|;
  }

  /** The identifier rows lead, their keys in descending order. */
  lemma SpreadHead(text: string, ks: seq<string>, mid: seq<FieldBinder>)
    requires StrictlyAscending(ks)
    ensures var r, n := Spread(text, ks, mid), |IdKeys(ks)|;
      && n <= |r|
      && (forall i :: 0 <= i < n ==> IsId(r[i].field) && r[i].field in ks && r[i].value == None)
      && (forall i, j :: 0 <= i < j < n ==> Below(r[j].field, r[i].field))
  {
    KeysPartition(ks);
    KeysPartitionAscending(ks);
    var ids := IdKeys(ks);
    var r := Spread(text, ks, mid);
    forall i | 0 <= i < |ids| ensures r[i] == FieldBinder(text, ids[|ids| - 1 - i], None) {
    }
  }

  /** The other rows close the list, their keys in ascending order. */
  lemma SpreadTail(text: string, ks: seq<string>, mid: seq<FieldBinder>)
    requires StrictlyAscending(ks)
    ensures var r, n := Spread(text, ks, mid), |IdKeys(ks)| + |mid|;
      && n <= |r|
      && (forall i :: n <= i < |r| ==> !IsId(r[i].field) && r[i].field in ks && r[i].value == None)
      && (forall i, j :: n <= i < j < |r| ==> Below(r[i].field, r[j].field))
  {
    KeysPartition(ks);
    KeysPartitionAscending(ks);
    var plain := PlainKeys(ks);
    var r, n := Spread(text, ks, mid), |IdKeys(ks)| + |mid|;
    forall i | n <= i < |r| ensures r[i] == FieldBinder(text, plain[i - n], None) {
    }
  }

  /**
   * Visiting ascending keys, the loop leaves the identifier keys at the head
   * in descending order, then `mid` unchanged, then the other keys in
   * ascending order.
   */
  lemma SpreadOrder(text: string, ks: seq<string>, mid: seq<FieldBinder>)
    requires StrictlyAscending(ks)
    ensures var r, n := Spread(text, ks, mid), |IdKeys(ks)|;
      && n + |mid| <= |r|
      && r[n..n + |mid|] == mid
      && (forall i :: 0 <= i < n ==> IsId(r[i].field) && r[i].field in ks && r[i].value == None)
      && (forall i :: n + |mid| <= i < |r| ==> !IsId(r[i].field) && r[i].field in ks && r[i].value == None)
      && (forall i, j :: 0 <= i < j < n ==> Below(r[j].field, r[i].field))
      && (forall i, j :: n + |mid| <= i < j < |r| ==> Below(r[i].field, r[j].field))
  {
    SpreadMiddle(text, ks, [], mid);
    assert [] + mid == mid;
    SpreadHead(text, ks, mid);
    SpreadTail(text, ks, mid);
  }

  // ---------------------------------------------------------------------
  // Rebuilding the field list for a known service
  // ---------------------------------------------------------------------

  /** The `entity_id` row, when the service has a target. */
  function EntityRow(text: string, present: bool): seq<FieldBinder> {
    if present then [FieldBinder(text, ENTITY_ID, None)] else []
  }

  /**
   * The form rows for service text `text` naming `svc`: the schema keys
   * visited in ascending order after the `entity_id` row, if any.
   */
  ghost function Layout(text: string, svc: Service): seq<FieldBinder> {
    Spread(text, Ascending(svc.fields), EntityRow(text, HasTarget(svc.target)))
  }

  /** Rows the loop adds are empty rows of `text`; every other row comes from `mid`. */
  lemma SpreadRows(text: string, ks: seq<string>, mid: seq<FieldBinder>)
    ensures forall b :: b in Spread(text, ks, mid) ==> b in mid || (b.service == text && b.value == None)
  {
    var ids, plain := Bind(text, Reverse(IdKeys(ks))), Bind(text, PlainKeys(ks));
    assert Spread(text, ks, mid) == ids + mid + plain;
  }

  /**
   * The rebuilt list has one row per schema key plus one `entity_id` row
   * when the target is not `false`; every row is empty and belongs to `text`.
   */
  lemma LayoutContents(text: string, svc: Service)
    ensures var r := Layout(text, svc);
      && |r| == |svc.fields| + (if HasTarget(svc.target) then 1 else 0)
      && (forall k :: multiset(Names(r))[k]
            == (if k in svc.fields then 1 else 0) + (if k == ENTITY_ID && HasTarget(svc.target) then 1 else 0))
      && (forall b :: b in r ==> b.service == text && b.value == None)
  {
    AscendingSpec(svc.fields);
    AscendingCounts(svc.fields);
    SpreadContents(text, Ascending(svc.fields), svc.fields, HasTarget(svc.target));
  }

  /** `LayoutContents` for any key sequence listing each key of `keys` once. */
  lemma SpreadContents(text: string, ks: seq<string>, keys: set<string>, present: bool)
    requires |ks| == |keys|
    requires forall k :: multiset(ks)[k] == if k in keys then 1 else 0
    ensures var r := Spread(text, ks, EntityRow(text, present));
      && |r| == |keys| + (if present then 1 else 0)
      && (forall k :: multiset(Names(r))[k]
            == (if k in keys then 1 else 0) + (if k == ENTITY_ID && present then 1 else 0))
      && (forall b :: b in r ==> b.service == text && b.value == None)
  {
    var mid := EntityRow(text, present);
    SpreadCounts(text, ks, mid);
    SpreadRows(text, ks, mid);
    assert Names(mid) == if present then [ENTITY_ID] else [];
  }

  /**
   * In the rebuilt list the schema's identifier keys lead in descending
   * order, followed by the `entity_id` row (if any), followed by the other
   * keys in ascending order.
   */
  lemma LayoutOrder(text: string, svc: Service)
    ensures var r, n, e := Layout(text, svc), |IdKeys(Ascending(svc.fields))|,
                           if HasTarget(svc.target) then 1 else 0;
      && n + e <= |r|
      && (forall i :: 0 <= i < n ==> IsId(r[i].field) && r[i].field in svc.fields)
      && (forall i, j :: 0 <= i < j < n ==> Below(r[j].field, r[i].field))
      && (e == 1 ==> r[n].field == ENTITY_ID)
      && (forall i :: n + e <= i < |r| ==> !IsId(r[i].field) && r[i].field in svc.fields)
      && (forall i, j :: n + e <= i < j < |r| ==> Below(r[i].field, r[j].field))
  {
    var ks := Ascending(svc.fields);
    AscendingSpec(svc.fields);
    var mid := EntityRow(text, HasTarget(svc.target));
    SpreadOrder(text, ks, mid);
  }

  /** In the rebuilt list every identifier row, `entity_id` included, comes before every other row. */
  lemma LayoutIdsFirst(text: string, svc: Service)
    ensures var r := Layout(text, svc);
      forall i, j :: 0 <= i < j < |r| && IsId(r[j].field) ==> IsId(r[i].field)
  {
    LayoutOrder(text, svc);
    EntityIdIsId();
  }

  // ---------------------------------------------------------------------
  // Merging a saved payload on reconfiguration
  // ---------------------------------------------------------------------

  /** A saved payload, as its (key, value text) entries in map iteration order. */
  type Payload = seq<(string, string)>

  predicate DistinctKeys(saved: Payload) {
    forall i, j :: 0 <= i < j < |saved| ==> saved[i].0 != saved[j].0
  }

  function SavedKeys(saved: Payload): set<string> {
    set i | 0 <= i < |saved| :: saved[i].0
  }

  /**
   * The text a saved value is shown with: its brackets removed, and for
   * `entity_id` a trailing ", " so that another entity can be typed.
   */
  function Restored(key: string, raw: string): string {
    Remove(Remove(raw, '['), ']') + (if key == ENTITY_ID then ", " else "")
  }

  /**
   * A restored value holds no brackets; a value without brackets is kept
   * as it is, followed by ", " for `entity_id`.
   */
  lemma RestoredSpec(key: string, raw: string)
    ensures '[' !in Restored(key, raw) && ']' !in Restored(key, raw)
    ensures '[' !in raw && ']' !in raw ==>
      Restored(key, raw) == raw + (if key == ENTITY_ID then ", " else "")
  {
    var r := Restored(key, raw);
    var stripped := Remove(Remove(raw, '['), ']');
    assert '[' !in Remove(raw, '[');
    assert '[' !in stripped;
    assert r == stripped + (if key == ENTITY_ID then ", " else "");
  }

  /**
   * A saved list such as `[light.a, light.b]` is restored as its text
   * between the brackets, followed by ", " for `entity_id`.
   */
  lemma RestoredList(key: string, x: string)
    requires '[' !in x && ']' !in x
    ensures Restored(key, "[" + x + "]") == x + (if key == ENTITY_ID then ", " else "")
  {
    RemoveAppend("[" + x, "]", '[');
    RemoveAppend("[", x, '[');
    RemoveOne('[', '[');
    RemoveOne(']', '[');
    assert Remove("[" + x + "]", '[') == x + "]";
    RemoveAppend(x, "]", ']');
    RemoveOne(']', ']');
    assert Remove(x + "]", ']') == x;
  }

  /** One row per saved entry, carrying its restored value. */
  function SavedRows(text: string, saved: Payload): (bs: seq<FieldBinder>)
    ensures |bs| == |saved|
    ensures forall i :: 0 <= i < |saved| ==>
      bs[i] == FieldBinder(text, saved[i].0, Some(Restored(saved[i].0, saved[i].1)))
  {
    seq(|saved|, i requires 0 <= i < |saved| => FieldBinder(text, saved[i].0, Some(Restored(saved[i].0, saved[i].1))))
  }

  /** Visiting one more saved entry adds its key and appends its row. */
  lemma SavedStep(text: string, saved: Payload, i: nat)
    requires i < |saved|
    ensures SavedKeys(saved[..i + 1]) == SavedKeys(saved[..i]) + {saved[i].0}
    ensures SavedRows(text, saved[..i + 1])
      == SavedRows(text, saved[..i]) + [FieldBinder(text, saved[i].0, Some(Restored(saved[i].0, saved[i].1)))]
  {
    var a, b := saved[..i + 1], saved[..i];
    forall k ensures k in SavedKeys(a) <==> k in SavedKeys(b) + {saved[i].0} {
      if k in SavedKeys(a) {
        var j :| 0 <= j < |a| && a[j].0 == k;
        if j < i {
          assert b[j].0 == k;
        }
      }
      if k in SavedKeys(b) {
        var j :| 0 <= j < |b| && b[j].0 == k;
        assert a[j].0 == k;
      }
      if k == saved[i].0 {
        assert a[i].0 == k;
      }
    }
  }

  /**
   * The list after reconfiguration: `existing` followed by the saved rows,
   * the `entity_id` row put in front when the target is not `false` and no
   * `entity_id` was saved, and the schema keys that were not saved visited
   * in ascending order.
   */
  ghost function Merge(text: string, svc: Service, existing: seq<FieldBinder>, saved: Payload): seq<FieldBinder> {
    var added := SavedKeys(saved);
    Spread(text, Ascending(svc.fields - added),
           EntityRow(text, HasTarget(svc.target) && ENTITY_ID !in added) + (existing + SavedRows(text, saved)))
  }

  lemma {:induction false} DistinctCounts(s: seq<string>)
    requires forall i, j :: 0 <= i < j < |s| ==> s[i] != s[j]
    ensures forall k :: multiset(s)[k] == (if k in s then 1 else 0)
    decreases |s|
  {
    if s != [] {
      var init := s[..|s| - 1];
      DistinctCounts(init);
      assert s == init + [s[|s| - 1]];
    }
  }

  /**
   * Reconfiguration adds one row per saved key and one per schema key that
   * was not saved, plus the `entity_id` row only when it was not saved: no
   * saved key is added twice.
   */
  lemma MergeCounts(text: string, svc: Service, existing: seq<FieldBinder>, saved: Payload)
    requires DistinctKeys(saved)
    ensures var added := SavedKeys(saved);
      forall k :: multiset(Names(Merge(text, svc, existing, saved)))[k]
        == multiset(Names(existing))[k]
         + (if k in added then 1 else 0)
         + (if k in svc.fields && k !in added then 1 else 0)
         + (if k == ENTITY_ID && HasTarget(svc.target) && k !in added then 1 else 0)
  {
    var added := SavedKeys(saved);
    AscendingCounts(svc.fields - added);
    SavedRowCounts(text, saved);
    MergeRowCounts(text, Ascending(svc.fields - added), svc.fields - added,
      HasTarget(svc.target) && ENTITY_ID !in added, existing, SavedRows(text, saved), added);
  }

  /**
   * Row counts of `Spread` around the `entity_id` row (if `present`), then
   * `existing`, then `rows`, for any listing `ks` of `keys`.
   */
  lemma MergeRowCounts(text: string, ks: seq<string>, keys: set<string>, present: bool,
                       existing: seq<FieldBinder>, rows: seq<FieldBinder>, added: set<string>)
    requires forall k :: multiset(ks)[k] == if k in keys then 1 else 0
    requires forall k :: multiset(Names(rows))[k] == if k in added then 1 else 0
    ensures forall k ::
              multiset(Names(Spread(text, ks, EntityRow(text, present) + (existing + rows))))[k]
              == multiset(Names(existing))[k] + (if k in added then 1 else 0)
                 + (if k in keys then 1 else 0) + (if k == ENTITY_ID && present then 1 else 0)
  {
    var entity := EntityRow(text, present);
    var mid := entity + (existing + rows);
    SpreadCounts(text, ks, mid);
    NamesAppend(entity, existing + rows);
    NamesAppend(existing, rows);
    assert Names(entity) == if present then [ENTITY_ID] else [];
  }

  /** Each saved key names exactly one saved row. */
  lemma SavedRowCounts(text: string, saved: Payload)
    requires DistinctKeys(saved)
    ensures forall k :: multiset(Names(SavedRows(text, saved)))[k] == if k in SavedKeys(saved) then 1 else 0
  {
    var keys := Names(SavedRows(text, saved));
    DistinctCounts(keys);
    forall k ensures k in keys <==> k in SavedKeys(saved) {
      if k in SavedKeys(saved) {
        var i :| 0 <= i < |saved| && saved[i].0 == k;
        assert keys[i] == k;
      }
    }
  }

  /** How many rows reconfiguration puts in front of `existing`. */
  ghost function MergeLead(svc: Service, saved: Payload): nat {
    var added := SavedKeys(saved);
    |IdKeys(Ascending(svc.fields - added))| + (if HasTarget(svc.target) && ENTITY_ID !in added then 1 else 0)
  }

  /** The rows of `front + back` sit, in order, right after the identifier rows. */
  lemma SpreadMiddle(text: string, ks: seq<string>, front: seq<FieldBinder>, back: seq<FieldBinder>)
    ensures var r, m := Spread(text, ks, front + back), |IdKeys(ks)| + |front|;
      m + |back| <= |r| && r[m..m + |back|] == back
  {
    Slice(Bind(text, Reverse(IdKeys(ks))), front, back, Bind(text, PlainKeys(ks)));
  }

  /** In `a + (f + b) + c`, `b` sits right after `a` and `f`. */
  lemma Slice<T>(a: seq<T>, f: seq<T>, b: seq<T>, c: seq<T>)
    ensures var r := a + (f + b) + c;
      |a| + |f| + |b| <= |r| && r[|a| + |f|..|a| + |f| + |b|] == b
  {
    assert a + (f + b) + c == (a + f) + b + c;
  }

  /**
   * After reconfiguration, `existing` and the saved rows sit together, in
   * order, right after the leading identifier rows and `entity_id` row.
   */
  lemma MergeMiddle(text: string, svc: Service, existing: seq<FieldBinder>, saved: Payload)
    ensures var r, m := Merge(text, svc, existing, saved), MergeLead(svc, saved);
      && m + |existing| + |saved| <= |r|
      && r[m..m + |existing| + |saved|] == existing + SavedRows(text, saved)
  {
    var added := SavedKeys(saved);
    var entity := EntityRow(text, HasTarget(svc.target) && ENTITY_ID !in added);
    SpreadMiddle(text, Ascending(svc.fields - added), entity, existing + SavedRows(text, saved));
  }

  /** Every row outside `mid` is named by a visited key. */
  lemma SpreadOutside(text: string, ks: seq<string>, mid: seq<FieldBinder>)
    ensures var r, n := Spread(text, ks, mid), |IdKeys(ks)|;
      forall i :: 0 <= i < |r| && !(n <= i < n + |mid|) ==> r[i].field in ks
  {
    KeysPartition(ks);
    var ids, plain := Bind(text, Reverse(IdKeys(ks))), Bind(text, PlainKeys(ks));
    assert forall i :: 0 <= i < |ids| ==> ids[i].field in IdKeys(ks);
    assert forall i :: 0 <= i < |plain| ==> plain[i].field in PlainKeys(ks);
  }

  /** No row that reconfiguration adds from the schema carries a saved key. */
  lemma MergeSkipsSaved(text: string, svc: Service, existing: seq<FieldBinder>, saved: Payload)
    ensures var r, m := Merge(text, svc, existing, saved), MergeLead(svc, saved);
      forall i :: 0 <= i < |r| && !(m <= i < m + |existing| + |saved|) ==> r[i].field !in SavedKeys(saved)
  {
    var added := SavedKeys(saved);
    var ks := Ascending(svc.fields - added);
    AscendingSpec(svc.fields - added);
    var entity := EntityRow(text, HasTarget(svc.target) && ENTITY_ID !in added);
    var mid := entity + (existing + SavedRows(text, saved));
    SpreadOutside(text, ks, mid);
    var r, n := Merge(text, svc, existing, saved), |IdKeys(ks)|;
    forall i | n <= i < n + |entity| ensures r[i].field !in added {
      assert r[i] == mid[i - n] == entity[i - n];
    }
  }

  // ---------------------------------------------------------------------
  // The service-data map sent with the widget
  // ---------------------------------------------------------------------

  /** Rows visited in order; each row with a value sets its field, overwriting earlier ones. */
  function DataMap(fields: seq<FieldBinder>): map<string, string> {
    if fields == [] then map[]
    else
      var m := DataMap(fields[..|fields| - 1]);
      var b := fields[|fields| - 1];
      if b.value.Some? then m[b.field := b.value.value] else m
  }

  /** Row `i` has a value and no later row of the same field has one. */
  predicate LastWithValue(fields: seq<FieldBinder>, i: nat)
    requires i < |fields|
  {
    fields[i].value.Some? &&
    forall j :: i < j < |fields| && fields[j].field == fields[i].field ==> fields[j].value.None?
  }

  /** The map holds exactly the fields of rows with a value. */
  lemma {:induction false} DataMapKeys(fields: seq<FieldBinder>)
    ensures forall k :: k in DataMap(fields) <==>
      exists i :: 0 <= i < |fields| && fields[i].field == k && fields[i].value.Some?
    decreases |fields|
  {
    if fields != [] {
      var init := fields[..|fields| - 1];
      DataMapKeys(init);
      forall k | k in DataMap(fields)
        ensures exists i :: 0 <= i < |fields| && fields[i].field == k && fields[i].value.Some?
      {
        if k in DataMap(init) && k != fields[|fields| - 1].field {
          var i :| 0 <= i < |init| && init[i].field == k && init[i].value.Some?;
          assert fields[i] == init[i];
        }
      }
      forall k | exists i :: 0 <= i < |fields| && fields[i].field == k && fields[i].value.Some?
        ensures k in DataMap(fields)
      {
        var i :| 0 <= i < |fields| && fields[i].field == k && fields[i].value.Some?;
        if i < |init| {
          assert init[i] == fields[i];
        }
      }
    }
  }

  /** Each field maps to the value of the last row of that field with a value. */
  lemma {:induction false} DataMapValues(fields: seq<FieldBinder>)
    ensures forall i :: 0 <= i < |fields| && LastWithValue(fields, i) ==>
      fields[i].field in DataMap(fields) && DataMap(fields)[fields[i].field] == fields[i].value.value
    decreases |fields|
  {
    if fields != [] {
      var init := fields[..|fields| - 1];
      DataMapValues(init);
      forall i | 0 <= i < |fields| && LastWithValue(fields, i)
        ensures fields[i].field in DataMap(fields) && DataMap(fields)[fields[i].field] == fields[i].value.value
      {
        if i < |init| {
          assert init[i] == fields[i];
          assert forall j :: i < j < |init| ==> init[j] == fields[j];
          assert LastWithValue(init, i);
        }
      }
    }
  }
}
