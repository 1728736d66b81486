/**
 * The properties a page handler of `server.js` writes into a vertical's settings
 * object before rendering: `vertical`, `env`, `verticalAuthenticatedEndpoints`,
 * `showEditDrawer` and, with the edit drawer, `editorMapping` and `currentPage`.
 * Each is a plain property assignment, so a setting of the same name is
 * overwritten in place and every other setting stays where it was.
 */
module PageFields {
  import opened Wrappers
  import opened OrderedMaps

  /** The keys written on every page view. */
  const ViewKeys: set<string> := {"vertical", "env", "verticalAuthenticatedEndpoints", "showEditDrawer"}

  /** The keys the handler writes into the settings object. */
  const InjectedKeys: set<string> := ViewKeys + {"editorMapping", "currentPage"}

  /** The fields written whatever the query: `getViewParams`'s vertical and
      environment, then the handler's links behind authentication and drawer flag. */
  function ViewFields<V>(fs: OrderedMap<V>, vertical: V, env: V, authenticated: V, flag: V): OrderedMap<V> {
    Put(Put(Put(Put(fs, "vertical", vertical), "env", env), "verticalAuthenticatedEndpoints", authenticated),
        "showEditDrawer", flag)
  }

  /** An object's properties with the page's own fields written into them, in the
      handler's order; the editor mapping and the current page only when the drawer
      is shown. */
  function WithPageFields<V>(fs: OrderedMap<V>, vertical: V, env: V, authenticated: V,
                             flag: V, drawer: bool, mapping: V, page: V): OrderedMap<V>
  {
    var f4 := ViewFields(fs, vertical, env, authenticated, flag);
    if drawer then Put(Put(f4, "editorMapping", mapping), "currentPage", page) else f4
  }

  /** The settings keep their positions; the page's fields not among them come after. */
  lemma PageFieldsKeepPositions<V>(fs: OrderedMap<V>, vertical: V, env: V, authenticated: V,
                                   flag: V, drawer: bool, mapping: V, page: V)
    ensures KeepsPositions(fs, WithPageFields(fs, vertical, env, authenticated, flag, drawer, mapping, page))
  {
    var f1 := Put(fs, "vertical", vertical);
    var f2 := Put(f1, "env", env);
    var f3 := Put(f2, "verticalAuthenticatedEndpoints", authenticated);
    var f4 := Put(f3, "showEditDrawer", flag);
    PutKeepsPositions(fs, "vertical", vertical);
    PutKeepsPositions(f1, "env", env);
    PutKeepsPositions(f2, "verticalAuthenticatedEndpoints", authenticated);
    PutKeepsPositions(f3, "showEditDrawer", flag);
    PutKeepsPositions(f4, "editorMapping", mapping);
    PutKeepsPositions(Put(f4, "editorMapping", mapping), "currentPage", page);
  }

  /** A key the view fields do not name reads what the object held. */
  lemma GetViewFieldsElsewhere<V>(fs: OrderedMap<V>, vertical: V, env: V, authenticated: V, flag: V, k: string)
    requires k !in ViewKeys
    ensures Get(ViewFields(fs, vertical, env, authenticated, flag), k) == Get(fs, k)
  {
    var f1 := Put(fs, "vertical", vertical);
    var f2 := Put(f1, "env", env);
    var f3 := Put(f2, "verticalAuthenticatedEndpoints", authenticated);
    assert Get(f1, k) == Get(fs, k);
    assert Get(f2, k) == Get(fs, k);
    assert Get(f3, k) == Get(fs, k);
    assert Get(Put(f3, "showEditDrawer", flag), k) == Get(fs, k);
  }

  /** The vertical and the environment read what was written, whatever the object held
      under their names. */
  lemma GetPageFields<V>(fs: OrderedMap<V>, vertical: V, env: V, authenticated: V, flag: V, drawer: bool,
                         mapping: V, page: V)
    ensures var out := WithPageFields(fs, vertical, env, authenticated, flag, drawer, mapping, page);
            Get(out, "vertical") == Some(vertical) && Get(out, "env") == Some(env)
  {
    var f1 := Put(fs, "vertical", vertical);
    var f2 := Put(f1, "env", env);
    var f3 := Put(f2, "verticalAuthenticatedEndpoints", authenticated);
    var f4 := Put(f3, "showEditDrawer", flag);
    assert Get(f2, "vertical") == Some(vertical) by {
      assert Get(f1, "vertical") == Some(vertical);
    }
    assert Get(f4, "vertical") == Some(vertical) by {
      assert Get(f3, "vertical") == Some(vertical);
    }
    assert Get(f4, "env") == Some(env) by {
      assert Get(f3, "env") == Some(env);
    }
    if drawer {
      var f5 := Put(f4, "editorMapping", mapping);
      assert Get(f5, "vertical") == Get(f4, "vertical");
      assert Get(f5, "env") == Get(f4, "env");
      var out := Put(f5, "currentPage", page);
      assert Get(out, "vertical") == Get(f5, "vertical");
      assert Get(out, "env") == Get(f5, "env");
    }
  }

  /** So do the links behind authentication and the drawer flag. */
  lemma GetPageFlags<V>(fs: OrderedMap<V>, vertical: V, env: V, authenticated: V, flag: V, drawer: bool,
                        mapping: V, page: V)
    ensures var out := WithPageFields(fs, vertical, env, authenticated, flag, drawer, mapping, page);
            Get(out, "verticalAuthenticatedEndpoints") == Some(authenticated) && Get(out, "showEditDrawer") == Some(flag)
  {
    var f3 := Put(Put(Put(fs, "vertical", vertical), "env", env), "verticalAuthenticatedEndpoints", authenticated);
    var f4 := Put(f3, "showEditDrawer", flag);
    assert Get(f4, "verticalAuthenticatedEndpoints") == Some(authenticated) by {
      assert Get(f3, "verticalAuthenticatedEndpoints") == Some(authenticated);
    }
    if drawer {
      var f5 := Put(f4, "editorMapping", mapping);
      assert Get(f5, "verticalAuthenticatedEndpoints") == Get(f4, "verticalAuthenticatedEndpoints");
      assert Get(f5, "showEditDrawer") == Get(f4, "showEditDrawer");
      var out := Put(f5, "currentPage", page);
      assert Get(out, "verticalAuthenticatedEndpoints") == Get(f5, "verticalAuthenticatedEndpoints");
      assert Get(out, "showEditDrawer") == Get(f5, "showEditDrawer");
    }
  }

  /** The current page is written only with the drawer; otherwise the object's own stays. */
  lemma GetPageFieldsCurrentPage<V>(fs: OrderedMap<V>, vertical: V, env: V, authenticated: V,
                                    flag: V, drawer: bool, mapping: V, page: V)
    ensures Get(WithPageFields(fs, vertical, env, authenticated, flag, drawer, mapping, page), "currentPage") ==
            if drawer then Some(page) else Get(fs, "currentPage")
  {
    GetViewFieldsElsewhere(fs, vertical, env, authenticated, flag, "currentPage");
    if drawer {
      var f5 := Put(ViewFields(fs, vertical, env, authenticated, flag), "editorMapping", mapping);
      assert Get(Put(f5, "currentPage", page), "currentPage") == Some(page);
    }
  }

  /** So is the editor mapping. */
  lemma GetPageFieldsEditorMapping<V>(fs: OrderedMap<V>, vertical: V, env: V, authenticated: V,
                                      flag: V, drawer: bool, mapping: V, page: V)
    ensures Get(WithPageFields(fs, vertical, env, authenticated, flag, drawer, mapping, page), "editorMapping") ==
            if drawer then Some(mapping) else Get(fs, "editorMapping")
  {
    GetViewFieldsElsewhere(fs, vertical, env, authenticated, flag, "editorMapping");
    if drawer {
      var f5 := Put(ViewFields(fs, vertical, env, authenticated, flag), "editorMapping", mapping);
      assert Get(f5, "editorMapping") == Some(mapping);
      assert Get(Put(f5, "currentPage", page), "editorMapping") == Some(mapping);
    }
  }

  /** Every other key reads what the object held. */
  lemma GetPageFieldsElsewhere<V>(fs: OrderedMap<V>, vertical: V, env: V, authenticated: V,
                                  flag: V, drawer: bool, mapping: V, page: V, k: string)
    requires k !in InjectedKeys
    ensures Get(WithPageFields(fs, vertical, env, authenticated, flag, drawer, mapping, page), k) == Get(fs, k)
  {
    GetViewFieldsElsewhere(fs, vertical, env, authenticated, flag, k);
    if drawer {
      var f5 := Put(ViewFields(fs, vertical, env, authenticated, flag), "editorMapping", mapping);
      assert Get(f5, k) == Get(fs, k);
      assert Get(Put(f5, "currentPage", page), k) == Get(fs, k);
    }
  }

  /** Clearing the drawer flag and then setting it, as the handler does, leaves the
      same object as setting it once. */
  lemma PageFieldsInSteps<V>(fs: OrderedMap<V>, vertical: V, env: V, authenticated: V,
                             off: V, on: V, drawer: bool, mapping: V, page: V)
    ensures var f4 := ViewFields(fs, vertical, env, authenticated, off);
            WithPageFields(fs, vertical, env, authenticated, if drawer then on else off, drawer, mapping, page) ==
              if drawer then Put(Put(Put(f4, "showEditDrawer", on), "editorMapping", mapping), "currentPage", page)
              else f4
  {
    var f3 := Put(Put(Put(fs, "vertical", vertical), "env", env), "verticalAuthenticatedEndpoints", authenticated);
    PutPut(f3, "showEditDrawer", off, on);
  }
}
