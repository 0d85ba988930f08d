/** The proxy's header multimap: names are lower-cased on every operation and map
    to an ordered list of values, so a repeated header such as `Set-Cookie` keeps
    every occurrence in arrival order. The names are also kept in the order they
    were first added, which is the order the serialiser writes them in. */
module Headers {
  import opened Wrappers
  import opened Faults
  import opened Text
  import opened Numbers

  datatype HeaderCollection = HeaderCollection(names: seq<string>, values: map<string, seq<string>>)

  /** One `name: value` header line. */
  type Field = (string, string)

  const Empty: HeaderCollection := HeaderCollection([], map[])

  const ContentLengthName: string := "content-length"
  const TransferEncodingName: string := "transfer-encoding"
  const ContentEncodingName: string := "content-encoding"
  const ContentTypeName: string := "content-type"
  const ProxyAuthorizationName: string := "proxy-authorization"

  /** The class invariant: names are distinct, lower-case, listed exactly once in
      `names`, and each holds at least one value. */
  ghost predicate Valid(h: HeaderCollection) {
    && Distinct(h.names)
    && (forall k :: k in h.values <==> k in h.names)
    && (forall k :: k in h.values ==> Lower(k) == k && |h.values[k]| > 0)
  }

  ghost predicate Distinct(s: seq<string>) {
    forall i, j :: 0 <= i < j < |s| ==> s[i] != s[j]
  }

  /** The values stored under the lower-case key `k`, or none. */
  function Lookup(h: HeaderCollection, k: string): seq<string> {
    if k in h.values then h.values[k] else []
  }

  /** `GetValues`: the values under `key` in any case, or an empty list. */
  function GetValues(h: HeaderCollection, key: string): seq<string> {
    Lookup(h, Lower(key))
  }

  /** `GetFirstValue`: the first value under `key` in any case, or null. */
  function GetFirstValue(h: HeaderCollection, key: string): (r: Option<string>)
    ensures r.Some? <==> |GetValues(h, key)| > 0
    ensures r.Some? ==> r.value == GetValues(h, key)[0]
  {
    var k := Lower(key);
    if k in h.values && |h.values[k]| > 0 then Some(h.values[k][0]) else None
  }

  /** `Add`: appends `value` to the list under `key`, creating it when absent. */
  function Add(h: HeaderCollection, key: string, value: string): (r: HeaderCollection)
    ensures Valid(h) ==> Valid(r)
    ensures GetValues(r, key) == GetValues(h, key) + [value]
    ensures forall k :: k != Lower(key) ==> Lookup(r, k) == Lookup(h, k)
  {
    var k := Lower(key);
    LowerIdempotent(key);
    if k in h.values then
      HeaderCollection(h.names, h.values[k := h.values[k] + [value]])
    else
      HeaderCollection(h.names + [k], h.values[k := [value]])
  }

  /** `AddOrReplace`: afterwards `key` holds exactly `value`. */
  function AddOrReplace(h: HeaderCollection, key: string, value: string): (r: HeaderCollection)
    ensures Valid(h) ==> Valid(r)
    ensures GetValues(r, key) == [value]
    ensures forall k :: k != Lower(key) ==> Lookup(r, k) == Lookup(h, k)
  {
    var k := Lower(key);
    LowerIdempotent(key);
    if k in h.values then
      HeaderCollection(h.names, h.values[k := [value]])
    else
      HeaderCollection(h.names + [k], h.values[k := [value]])
  }

  /** `names` without `k`, order kept. */
  function RemoveName(names: seq<string>, k: string): (r: seq<string>)
    ensures forall x :: x in r <==> x in names && x != k
    ensures Distinct(names) ==> Distinct(r)
  {
    if |names| == 0 then []
    else
      var tail := RemoveName(names[1..], k);
      if names[0] == k then tail
      else
        var r := [names[0]] + tail;
        assert Distinct(names) ==> Distinct(r) by {
          if Distinct(names) {
            assert Distinct(names[1..]);
            assert names[0] !in names[1..];
            forall i, j | 0 <= i < j < |r| ensures r[i] != r[j] {
              if i == 0 {
                assert r[j] == tail[j - 1];
                assert tail[j - 1] in tail;
              } else {
                assert r[i] == tail[i - 1] && r[j] == tail[j - 1];
              }
            }
          }
        }
        r
  }

  /** `Remove`: drops `key` and all its values; an absent key changes nothing. */
  function Remove(h: HeaderCollection, key: string): (r: HeaderCollection)
    ensures Valid(h) ==> Valid(r)
    ensures GetValues(r, key) == [] && GetFirstValue(r, key) == None
    ensures forall k :: k != Lower(key) ==> Lookup(r, k) == Lookup(h, k)
    ensures GetValues(h, key) == [] && Valid(h) ==> r == h
  {
    var k := Lower(key);
    LowerIdempotent(key);
    if k !in h.values then h
    else HeaderCollection(RemoveName(h.names, k), h.values - {k})
  }

  /** `Dispose`: clears every list and the dictionary. */
  function Dispose(h: HeaderCollection): (r: HeaderCollection)
    ensures Valid(r)
    ensures forall key :: GetValues(r, key) == [] && GetFirstValue(r, key) == None
  {
    Empty
  }

  /** Every operation first lower-cases the key, so the case of the key never matters. */
  lemma KeyCaseInsensitive(h: HeaderCollection, key: string, value: string)
    ensures GetValues(h, key) == GetValues(h, Lower(key))
    ensures GetFirstValue(h, key) == GetFirstValue(h, Lower(key))
    ensures Add(h, key, value) == Add(h, Lower(key), value)
    ensures AddOrReplace(h, key, value) == AddOrReplace(h, Lower(key), value)
    ensures Remove(h, key) == Remove(h, Lower(key))
  {
    LowerIdempotent(key);
  }

  /** A stored key spelled in mixed case by the proxy lower-cases to the key, which
      is a fixpoint of lower-casing. */
  predicate SpelledAs(spelling: string, key: string) {
    Lower(spelling) == key && Lower(key) == key
  }

  /** The header names the proxy spells in mixed case. */
  lemma NamesLower()
    ensures SpelledAs("Content-Length", ContentLengthName)
    ensures SpelledAs("Transfer-Encoding", TransferEncodingName)
    ensures SpelledAs("Content-Encoding", ContentEncodingName)
    ensures SpelledAs("Content-Type", ContentTypeName)
    ensures SpelledAs("Proxy-Authorization", ProxyAuthorizationName)
  {
    ContentLengthSpelled();
    TransferEncodingSpelled();
    ContentEncodingSpelled();
    ContentTypeSpelled();
    ProxyAuthorizationSpelled();
  }

  lemma ContentLengthSpelled()
    ensures SpelledAs("Content-Length", ContentLengthName)
  {
    LowerIdempotent("Content-Length");
  }

  lemma TransferEncodingSpelled()
    ensures SpelledAs("Transfer-Encoding", TransferEncodingName)
  {
    LowerIdempotent("Transfer-Encoding");
  }

  lemma ContentEncodingSpelled()
    ensures SpelledAs("Content-Encoding", ContentEncodingName)
  {
    LowerIdempotent("Content-Encoding");
  }

  lemma ContentTypeSpelled()
    ensures SpelledAs("Content-Type", ContentTypeName)
  {
    LowerIdempotent("Content-Type");
  }

  lemma ProxyAuthorizationSpelled()
    ensures SpelledAs("Proxy-Authorization", ProxyAuthorizationName)
  {
    LowerIdempotent("Proxy-Authorization");
  }

  // ---------------------------------------------------------- Content-Length

  /** The `ContentLength` getter: the first `content-length` value parsed as a `long`,
      or 0 when the header is missing or does not parse. */
  function ContentLength(h: HeaderCollection): (n: int)
    ensures LongMin <= n <= LongMax
    ensures n != 0 ==>
              && |Lookup(h, ContentLengthName)| > 0
              && ParseInteger(Lookup(h, ContentLengthName)[0], LongMin, LongMax) == Some(n)
  {
    NamesLower();
    match GetFirstValue(h, "Content-Length")
    case None => 0
    case Some(text) => ParseInteger(text, LongMin, LongMax).GetOr(0)
  }

  /** The `ContentLength` setter: 0 removes the header, anything else replaces it. */
  function SetContentLength(h: HeaderCollection, n: int): (r: HeaderCollection)
    requires LongMin <= n <= LongMax
    ensures Valid(h) ==> Valid(r)
    ensures ContentLength(r) == n
    ensures n == 0 ==> Lookup(r, ContentLengthName) == []
    ensures n != 0 ==> Lookup(r, ContentLengthName) == [FormatInteger(n)]
    ensures forall k :: k != ContentLengthName ==> Lookup(r, k) == Lookup(h, k)
  {
    NamesLower();
    if n == 0 then
      Remove(h, "Content-Length")
    else
      ParseFormatInteger(n, LongMin, LongMax);
      AddOrReplace(h, "Content-Length", FormatInteger(n))
  }

  /** Setting the length a collection already carries changes nothing. */
  lemma SetContentLengthKeeps(h: HeaderCollection, n: int)
    requires LongMin <= n <= LongMax && n != 0
    requires Lookup(h, ContentLengthName) == [FormatInteger(n)]
    ensures SetContentLength(h, n) == h
  {
    NamesLower();
    assert h.values[ContentLengthName := [FormatInteger(n)]] == h.values;
  }

  /** The getter reads 0 exactly when the header is missing or its first value is
      not a `long`, and otherwise reads the parsed value. */
  lemma ContentLengthReads(h: HeaderCollection)
    ensures Lookup(h, ContentLengthName) == [] ==> ContentLength(h) == 0
    ensures |Lookup(h, ContentLengthName)| > 0 ==>
      match ParseInteger(Lookup(h, ContentLengthName)[0], LongMin, LongMax)
      case None => ContentLength(h) == 0
      case Some(v) => ContentLength(h) == v
  {
    NamesLower();
  }

  // ------------------------------------------------------ Proxy-Authorization

  /** `SetProxyAuthorization`: one `Basic` credential, base64 of `user:pass`. */
  function SetProxyAuthorization(h: HeaderCollection, user: string, pass: string): (r: HeaderCollection)
    ensures Valid(h) ==> Valid(r)
    ensures |Lookup(r, ProxyAuthorizationName)| == 1
    ensures StartsWith(Lookup(r, ProxyAuthorizationName)[0], "Basic ")
    ensures forall i :: 6 <= i < |Lookup(r, ProxyAuthorizationName)[0]| ==>
      IsBase64Char(Lookup(r, ProxyAuthorizationName)[0][i])
    ensures forall k :: k != ProxyAuthorizationName ==> Lookup(r, k) == Lookup(h, k)
  {
    NamesLower();
    var value := "Basic " + Base64(Encode(user + ":" + pass));
    assert value[..6] == "Basic ";
    AddOrReplace(h, "Proxy-Authorization", value)
  }

  // ---------------------------------------------------------- field sequences

  /** One field per value of `name`, in list order. */
  function FieldsOfName(name: string, vs: seq<string>): (r: seq<Field>)
    ensures |r| == |vs|
    ensures forall i :: 0 <= i < |vs| ==> r[i] == (name, vs[i])
  {
    seq(|vs|, i requires 0 <= i < |vs| => (name, vs[i]))
  }

  /** All `(name, value)` pairs of the listed names, in the order they are written. */
  function FieldsOf(names: seq<string>, m: map<string, seq<string>>): seq<Field>
    requires forall k :: k in names ==> k in m
  {
    if |names| == 0 then []
    else FieldsOf(names[..|names| - 1], m) + FieldsOfName(names[|names| - 1], m[names[|names| - 1]])
  }

  function Fields(h: HeaderCollection): seq<Field>
    requires Valid(h)
  {
    FieldsOf(h.names, h.values)
  }

  /** `Add` applied to each field in turn. */
  function AddAll(h: HeaderCollection, fs: seq<Field>): HeaderCollection {
    if |fs| == 0 then h
    else Add(AddAll(h, fs[..|fs| - 1]), fs[|fs| - 1].0, fs[|fs| - 1].1)
  }

  lemma {:induction false} AddAllAppend(h: HeaderCollection, fs: seq<Field>, gs: seq<Field>)
    ensures AddAll(h, fs + gs) == AddAll(AddAll(h, fs), gs)
    decreases |gs|
  {
    if |gs| == 0 {
      assert fs + gs == fs;
    } else {
      var all := fs + gs;
      assert all[..|all| - 1] == fs + gs[..|gs| - 1];
      AddAllAppend(h, fs, gs[..|gs| - 1]);
    }
  }

  lemma {:induction false} AddAllOneName(h: HeaderCollection, k: string, vs: seq<string>)
    requires Lower(k) == k && k !in h.values && |vs| > 0
    ensures AddAll(h, FieldsOfName(k, vs)) == HeaderCollection(h.names + [k], h.values[k := vs])
    decreases |vs|
  {
    var fs := FieldsOfName(k, vs);
    if |vs| == 1 {
      assert fs[..0] == [];
      assert vs == [vs[0]];
    } else {
      var init := vs[..|vs| - 1];
      assert fs[..|fs| - 1] == FieldsOfName(k, init);
      AddAllOneName(h, k, init);
      assert vs == init + [vs[|vs| - 1]];
    }
  }

  /** `r` lists exactly `names`, in order, each with its values from `m`. */
  ghost predicate Rebuilt(r: HeaderCollection, names: seq<string>, m: map<string, seq<string>>) {
    && r.names == names
    && (forall k :: k in r.values <==> k in names)
    && (forall k :: k in names ==> k in m && r.values[k] == m[k])
  }

  lemma RebuiltStep(r: HeaderCollection, init: seq<string>, last: string, m: map<string, seq<string>>)
    requires Rebuilt(r, init, m) && last in m
    ensures Rebuilt(HeaderCollection(r.names + [last], r.values[last := m[last]]), init + [last], m)
  {
  }

  lemma {:induction false} AddAllFieldsOf(names: seq<string>, m: map<string, seq<string>>)
    requires Distinct(names)
    requires forall k :: k in names ==> k in m && Lower(k) == k && |m[k]| > 0
    ensures Rebuilt(AddAll(Empty, FieldsOf(names, m)), names, m)
    decreases |names|
  {
    if |names| == 0 {
    } else {
      var init := names[..|names| - 1];
      var last := names[|names| - 1];
      assert Distinct(init);
      AddAllFieldsOf(init, m);
      var r := AddAll(Empty, FieldsOf(init, m));
      var lastFields := FieldsOfName(last, m[last]);
      assert FieldsOf(names, m) == FieldsOf(init, m) + lastFields;
      AddAllAppend(Empty, FieldsOf(init, m), lastFields);
      assert last !in init by {
        assert forall i :: 0 <= i < |init| ==> init[i] == names[i];
      }
      assert last !in r.values;
      AddAllOneName(r, last, m[last]);
      var r2 := HeaderCollection(r.names + [last], r.values[last := m[last]]);
      assert AddAll(Empty, FieldsOf(names, m)) == r2;
      RebuiltStep(r, init, last, m);
      assert init + [last] == names;
    }
  }

  /** Adding every field of a collection, in order, to an empty one rebuilds it exactly:
      the basis of `Clone` and of the header write/read round trip. */
  lemma AddAllFields(h: HeaderCollection)
    requires Valid(h)
    ensures AddAll(Empty, Fields(h)) == h
  {
    AddAllFieldsOf(h.names, h.values);
    var r := AddAll(Empty, Fields(h));
    assert r.values.Keys == h.values.Keys;
    assert r.values == h.values;
  }
}
