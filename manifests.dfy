/** The stored records extension.js reads after `JSON.parse`: snippets,
    extension manifests and theme manifests. Only the fields the code uses
    are kept; an absent JSON field or record is None. */
module Manifests {
  import opened Wrappers

  datatype Snippet = Snippet(title: string, description: string, code: string)

  datatype ExtensionManifest = ExtensionManifest(extensionURL: Option<string>)

  /** A colour scheme, its keys in `Object.keys` order, each with a hex colour. */
  type Scheme = seq<(string, string)>

  datatype ThemeManifest = ThemeManifest(
    cssURL: string,
    user: string,
    repo: string,
    branch: string,
    usercss: string,                        // `manifest.usercss`
    schemes: Option<seq<(string, Scheme)>>, // scheme name to scheme, in key order
    activeScheme: string,
    includes: seq<string>)                   // `include`: script URLs; an absent list is []

  /** `obj[key]` on an object given as its entries in key order. */
  function Lookup<V>(entries: seq<(string, V)>, key: string): (r: Option<V>)
    ensures r.Some? ==> exists k :: 0 <= k < |entries| && entries[k] == (key, r.value)
    ensures r.None? <==> forall k :: 0 <= k < |entries| ==> entries[k].0 != key
  {
    if entries == [] then None
    else if entries[0].0 == key then Some(entries[0].1)
    else
      var r := Lookup(entries[1..], key);
      assert r.Some? ==> exists k :: 0 <= k < |entries| && entries[k] == (key, r.value) by {
        if r.Some? {
          var k :| 0 <= k < |entries[1..]| && entries[1..][k] == (key, r.value);
          assert entries[k + 1] == (key, r.value);
        }
      }
      assert r.None? <==> forall k :: 0 <= k < |entries| ==> entries[k].0 != key by {
        if r.None? {
          forall k | 0 <= k < |entries| ensures entries[k].0 != key {
            if k > 0 { assert entries[k] == entries[1..][k - 1]; }
          }
        }
      }
      r
  }

  /** The values of an object, in key order (extension.js:194). */
  function Values<V>(entries: seq<(string, V)>): seq<V>
  {
    seq(|entries|, k requires 0 <= k < |entries| => entries[k].1)
  }
}
