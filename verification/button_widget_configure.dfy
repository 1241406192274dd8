/**
 * The button-widget configuration screen as an object: the service catalog
 * it loads, the list of form rows it rebuilds whenever the service text
 * changes, and the service call it sends when the widget is added.
 */
module ButtonWidgetConfigure {
  import opened Wrappers
  import opened Text
  import opened KeyOrder
  import opened ButtonFields

  /** A stored widget: its id, the service it calls, its label, icon and saved payload. */
  datatype ButtonWidget = ButtonWidget(
    id: int, domain: string, service: string, labelText: string, iconId: int, serviceData: Payload)

  /** What the "add widget" click sends to the widget: the call to make and how to show it. */
  datatype WidgetCall = WidgetCall(
    appWidgetId: int, domain: string, service: string, labelText: string, icon: int,
    serviceData: map<string, string>)

  /** The click either sends the call or shows the creation-error toast and sends nothing. */
  datatype AddOutcome = Sent(call: WidgetCall) | CreationError

  lemma UnionUpdate<K, V>(a: map<K, V>, b: map<K, V>, k: K, v: V)
    ensures (a + b)[k := v] == a + b[k := v]
  {
  }

  /** Merging two keyed catalogs gives a keyed catalog. */
  lemma KeyedUnion(a: map<string, Service>, b: map<string, Service>)
    requires Keyed(a) && Keyed(b)
    ensures Keyed(a + b)
  {
  }

  class ButtonWidgetConfigureActivity {
    var appWidgetId: int
    /** Catalog of services, keyed by service string. */
    var services: map<string, Service>
    /** The form rows on screen, in display order. */
    var dynamicFields: seq<FieldBinder>

    constructor (appWidgetId: int)
      ensures this.appWidgetId == appWidgetId
      ensures services == map[] && dynamicFields == []
      ensures Keyed(services)
    {
      this.appWidgetId := appWidgetId;
      services := map[];
      dynamicFields := [];
    }

    /** Stores each fetched service under its service string. */
    method LoadServices(fetched: seq<Service>)
      requires Keyed(services)
      modifies this`services
      ensures services == old(services) + Catalog(fetched)
      ensures Keyed(services)
    {
      ghost var start := services;
      var i := 0;
      assert fetched[..0] == [];
      while i < |fetched|
        invariant 0 <= i <= |fetched|
        invariant services == start + Catalog(fetched[..i])
      {
        CatalogStep(fetched, i);
        UnionUpdate(start, Catalog(fetched[..i]), ServiceString(fetched[i]), fetched[i]);
        services := services[ServiceString(fetched[i]) := fetched[i]];
        i := i + 1;
      }
      assert fetched[..i] == fetched;
      KeyedUnion(start, Catalog(fetched));
    }

    /**
     * Visits the keys of `keys` that are not in `skip` in ascending order,
     * putting each identifier key at the front of the form and each other
     * key at the back.
     */
    method InsertSchemaFields(text: string, keys: set<string>, skip: set<string>)
      modifies this`dynamicFields
      ensures dynamicFields == Spread(text, Ascending(keys - skip), old(dynamicFields))
    {
      ghost var mid := dynamicFields;
      var rest := keys;
      ghost var done: set<string> := {};
      while rest != {}
        invariant done <= keys && rest == keys - done
        invariant Precedes(done, rest)
        invariant dynamicFields == Spread(text, Ascending(done - skip), mid)
        decreases |rest|
      {
        MinExists(rest);
        var key :| key in rest && IsMin(key, rest);
        VisitMin(keys, done, rest, key);
        SpreadVisit(text, done, skip, key, mid);
        ghost var next := Spread(text, Ascending((done + {key}) - skip), mid);
        if key !in skip {
          if IsId(key) {
            dynamicFields := [FieldBinder(text, key, None)] + dynamicFields;
          } else {
            dynamicFields := dynamicFields + [FieldBinder(text, key, None)];
          }
        }
        assert dynamicFields == next;
        rest := rest - {key};
        done := done + {key};
      }
      assert done - skip == keys - skip;
    }

    /**
     * The service text changed: a catalog key rebuilds the form from that
     * service's schema, discarding the previous rows; any other text empties it.
     */
    method AfterTextChanged(text: string)
      modifies this`dynamicFields
      ensures dynamicFields == if text in services then Layout(text, services[text]) else []
    {
      if text in services {
        dynamicFields := [];
        var svc := services[text];
        if HasTarget(svc.target) {
          dynamicFields := [FieldBinder(text, ENTITY_ID, None)] + dynamicFields;
        }
        assert dynamicFields == EntityRow(text, HasTarget(svc.target));
        InsertSchemaFields(text, svc.fields, {});
        assert svc.fields - {} == svc.fields;
        assert dynamicFields == Layout(text, svc);
      } else {
        if |dynamicFields| > 0 {
          dynamicFields := [];
        }
      }
    }

    /** The "add field" dialog was confirmed: an empty row for `fieldKey` is appended. */
    method AddField(text: string, fieldKey: string)
      modifies this`dynamicFields
      ensures dynamicFields == old(dynamicFields) + [FieldBinder(text, fieldKey, None)]
    {
      dynamicFields := dynamicFields + [FieldBinder(text, fieldKey, None)];
    }

    /**
     * Reconfiguring a stored widget once the catalog is loaded: the saved
     * payload's entries are appended as rows carrying their values, then
     * the schema fields not already saved are added as on a rebuild.  A
     * widget whose service is not in the catalog fails and changes nothing.
     */
    method RestoreFields(widget: ButtonWidget) returns (loaded: bool)
      modifies this`dynamicFields
      ensures var text := widget.domain + "." + widget.service;
        && loaded == (text in services)
        && dynamicFields == if loaded then Merge(text, services[text], old(dynamicFields), widget.serviceData)
                            else old(dynamicFields)
    {
      var text := widget.domain + "." + widget.service;
      if text !in services {
        return false;
      }
      var svc := services[text];
      var saved := widget.serviceData;
      var addedFields: set<string> := {};
      var i := 0;
      while i < |saved|
        invariant 0 <= i <= |saved|
        invariant addedFields == SavedKeys(saved[..i])
        invariant dynamicFields == old(dynamicFields) + SavedRows(text, saved[..i])
      {
        var (key, raw) := saved[i];
        SavedStep(text, saved, i);
        dynamicFields := dynamicFields + [FieldBinder(text, key, Some(Restored(key, raw)))];
        addedFields := addedFields + {key};
        i := i + 1;
      }
      assert saved[..i] == saved;
      ghost var entity := EntityRow(text, HasTarget(svc.target) && ENTITY_ID !in addedFields);
      if HasTarget(svc.target) && ENTITY_ID !in addedFields {
        dynamicFields := [FieldBinder(text, ENTITY_ID, None)] + dynamicFields;
      }
      assert dynamicFields == entity + (old(dynamicFields) + SavedRows(text, saved));
      InsertSchemaFields(text, svc.fields, addedFields);
      loaded := true;
    }

    /**
     * The "add widget" click: resolves the service text, and sends the call
     * with the map of every row that has a value; a text that cannot be
     * resolved, or no icon chosen yet, shows the error instead.
     */
    method AddWidget(serviceText: string, labelText: string, icon: Option<int>) returns (outcome: AddOutcome)
      ensures outcome.CreationError? <==> Resolve(services, serviceText).None? || icon.None?
      ensures outcome.Sent? ==>
        outcome.call == WidgetCall(appWidgetId, Resolve(services, serviceText).value.0,
                                   Resolve(services, serviceText).value.1, labelText, icon.value,
                                   DataMap(dynamicFields))
    {
      var domain, service;
      if serviceText in services {
        domain, service := services[serviceText].domain, services[serviceText].service;
      } else {
        var parts := SplitOnce(serviceText, ".");
        if |parts| < 2 {
          return CreationError;
        }
        domain, service := parts[0], parts[1];
      }
      if icon.None? {
        return CreationError;
      }
      var serviceDataMap: map<string, string> := map[];
      var i := 0;
      while i < |dynamicFields|
        invariant 0 <= i <= |dynamicFields|
        invariant serviceDataMap == DataMap(dynamicFields[..i])
      {
        assert dynamicFields[..i + 1][..i] == dynamicFields[..i];
        var field := dynamicFields[i];
        if field.value.Some? {
          serviceDataMap := serviceDataMap[field.field := field.value.value];
        }
        i := i + 1;
      }
      assert dynamicFields[..i] == dynamicFields;
      outcome := Sent(WidgetCall(appWidgetId, domain, service, labelText, icon.value, serviceDataMap));
    }
  }
}
