/**
 * The OAuth key-value tables `auth_session` (keyed by the user's DID) and
 * `auth_state` (keyed by a random state token). Both tables have the shape
 * `key TEXT PRIMARY KEY, <payload> TEXT NOT NULL`, where the payload is the
 * serde-serialized session or state, opaque to this layer. One class models
 * either table: its rows are a map from primary key to payload.
 */
module KvStore {
  import opened Wrappers

  /** One row, as `AuthSession { key, session }` / `AuthState { key, state }`. */
  datatype Entry = Entry(key: string, payload: string)

  /** True when `c` may appear in a DID method name: `[a-z]`. */
  predicate IsDidMethodChar(c: char) {
    'a' <= c <= 'z'
  }

  /** True when `c` may appear in a DID's method-specific identifier: `[a-zA-Z0-9._:%-]`. */
  predicate IsDidIdChar(c: char) {
    'a' <= c <= 'z' || 'A' <= c <= 'Z' || '0' <= c <= '9' || c in "._:%-"
  }

  /** Length of the longest prefix of `s` made of DID method characters. */
  function MethodPrefixLength(s: string): (n: nat)
    ensures n <= |s|
    ensures forall i :: 0 <= i < n ==> IsDidMethodChar(s[i])
    ensures n < |s| ==> !IsDidMethodChar(s[n])
  {
    if s == [] || !IsDidMethodChar(s[0]) then 0 else 1 + MethodPrefixLength(s[1..])
  }

  /**
   * The DID syntax enforced by the `Did` type of the AT Protocol library:
   * at most 2048 bytes, matching `did:[a-z]+:[a-zA-Z0-9._:%-]*[a-zA-Z0-9._-]`.
   */
  predicate ValidDid(s: string) {
    && 4 <= |s| <= 2048
    && s[..4] == "did:"
    && var m := 4 + MethodPrefixLength(s[4..]);
    && 4 < m && m + 1 < |s| && s[m] == ':'
    && (forall i :: m < i < |s| ==> IsDidIdChar(s[i]))
    && s[|s| - 1] != ':' && s[|s| - 1] != '%'
  }

  lemma {:induction false} ExampleDidIsValid()
    ensures ValidDid("did:plc:abc123")
    ensures !ValidDid("did:plc:")
    ensures !ValidDid("did:PLC:abc")
  {
    var s := "did:plc:abc123";
    assert s[4..] == "plc:abc123";
    assert MethodPrefixLength("abc123") == 3 by {
      assert "abc123"[1..] == "bc123";
      assert "bc123"[1..] == "c123";
      assert "c123"[1..] == "123";
    }
    assert MethodPrefixLength(":abc123") == 0;
    assert MethodPrefixLength(s[4..]) == 3 by {
      assert s[4..][1..] == "lc:abc123";
      assert s[4..][1..][1..] == "c:abc123";
      assert s[4..][1..][1..][1..] == ":abc123";
    }
    var t := "did:PLC:abc";
    assert MethodPrefixLength(t[4..]) == 0;
  }

  /** A table `auth_session` or `auth_state`: the primary key mapped to the serialized payload. */
  class KvTable {
    var rows: map<string, string>

    /** An empty table, as left by `create_oauth_tables`. */
    constructor ()
      ensures rows == map[]
    {
      rows := map[];
    }

    /** `SELECT COUNT(*) ... WHERE key = ?1`: the key is the primary key, so 0 or 1. */
    function CountByKey(key: string): (n: nat)
      reads this
      ensures n <= 1
      ensures n > 0 <==> key in rows
    {
      if key in rows then 1 else 0
    }

    /**
     * `get_by_key`: the row stored under `key`, or `None` when there is none;
     * `QueryReturnedNoRows` is a normal outcome, not an error.
     */
    method GetByKey(key: string) returns (r: Option<Entry>)
      ensures r.None? <==> key !in rows
      ensures r.Some? ==> r.value.key == key && r.value.payload == rows[key]
    {
      if CountByKey(key) > 0 {
        r := Some(Entry(key, rows[key]));
      } else {
        r := None;
      }
    }

    /**
     * `get_by_did`: as `GetByKey`, but the key must be a well-formed DID,
     * since `Did::new(did).unwrap()` panics on anything else.
     */
    method GetByDid(did: string) returns (r: Option<Entry>)
      requires ValidDid(did)
      ensures r.None? <==> did !in rows
      ensures r.Some? ==> r.value == Entry(did, rows[did])
    {
      r := GetByKey(did);
    }

    /**
     * `save_or_update`: counts the rows with this key, then UPDATEs the
     * payload of the existing row or INSERTs a new one. Either way the
     * table afterwards maps the key to the new payload and every other
     * row is untouched.
     */
    method SaveOrUpdate(e: Entry)
      modifies this
      ensures rows == old(rows)[e.key := e.payload]
      ensures e.key in rows && rows[e.key] == e.payload
      ensures forall k :: k != e.key ==> (k in rows <==> k in old(rows))
      ensures forall k :: k != e.key && k in rows ==> rows[k] == old(rows)[k]
    {
      var count := CountByKey(e.key);
      if count > 0 {
        // UPDATE ... SET payload = ?2 WHERE key = ?1
        rows := map k | k in rows :: if k == e.key then e.payload else rows[k];
      } else {
        // INSERT INTO ... (key, payload) VALUES (?1, ?2)
        rows := rows[e.key := e.payload];
      }
    }

    /** `delete_by_did` / `delete_by_key`: removes that row only; an absent key is not an error. */
    method DeleteByKey(key: string)
      modifies this
      ensures rows == old(rows) - {key}
      ensures key !in rows
      ensures key !in old(rows) ==> rows == old(rows)
    {
      // DELETE FROM ... WHERE key = ?1
      rows := map k | k in rows && k != key :: rows[k];
    }

    /** `delete_all`: the table is left empty. */
    method DeleteAll()
      modifies this
      ensures rows == map[]
    {
      rows := map[];
    }
  }

  /**
   * Saving the same entry twice leaves the table as saving it once, and a
   * lookup afterwards returns exactly the saved payload.
   */
  method SaveOrUpdateTwice(t: KvTable, e: Entry) returns (r: Option<Entry>)
    modifies t
    ensures t.rows == old(t.rows)[e.key := e.payload]
    ensures r == Some(e)
  {
    t.SaveOrUpdate(e);
    t.SaveOrUpdate(e);
    r := t.GetByKey(e.key);
  }
}
