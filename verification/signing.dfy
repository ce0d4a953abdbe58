/** COS request signing (base_impl.go, `GenerateAuthorization`).

    The query parameters and the headers of a request are each brought into
    a canonical form: every key is percent-encoded and lower-cased, the keys
    are sorted bytewise (one entry per value), and the pairs
    `key=urlEncode(value)` are joined with '&'. The signed text is

        lower(method) "\n/" fileId "\n" parameters "\n" headers "\n"

    and the `Authorization` value has seven `name=value` fields in a fixed
    order. HMAC-SHA1 (RFC 2104) and SHA-1 are not modelled: they come in as
    the uninterpreted functions of a `Digests` value; their hex rendering
    (`%x`) is modelled. The wall clock comes in as a number. */
module Signing {
  import opened Text
  import opened UrlEncoding
  import Paths
  import Sorting

  /** One entry of a `url.Values` or `http.Header` map. A Go map is
      iterated in an unspecified order; a sequence of entries with distinct
      keys fixes one such order. */
  datatype Entry = Entry(key: Bytes, values: seq<Bytes>)

  /** `url.Values.Set` / `http.Header.Set`: replace the values of an
      existing key, or add the key at the end. Header keys are written here
      already in Go's canonical MIME form. A Go map holds a key once; should
      the sequence hold it more than once, the later entries are dropped, so
      that the key is left with exactly the one value either way. */
  function SetValue(entries: seq<Entry>, key: Bytes, value: Bytes): (r: seq<Entry>)
    ensures Entry(key, [value]) in r
    ensures forall e :: e in r && e.key == key ==> e == Entry(key, [value])
    ensures forall e :: e in entries && e.key != key ==> e in r
    ensures forall e :: e in r && e.key != key ==> e in entries
  {
    if |entries| == 0 then [Entry(key, [value])]
    else if entries[0].key == key then [Entry(key, [value])] + Without(entries[1..], key)
    else
      [entries[0]] + SetValue(entries[1..], key, value)
  }

  /** The entries whose key is not `key`, in order. */
  function Without(entries: seq<Entry>, key: Bytes): (r: seq<Entry>)
    ensures forall e :: e in r <==> e in entries && e.key != key
  {
    if |entries| == 0 then []
    else (if entries[0].key == key then [] else [entries[0]]) + Without(entries[1..], key)
  }

  /** No two entries share a key, as in a Go map. */
  predicate DistinctKeys(entries: seq<Entry>)
  {
    forall i, j :: 0 <= i < j < |entries| ==> entries[i].key != entries[j].key
  }

  /** Setting a key keeps the entries a map: the key is held once. */
  lemma {:induction false} SetValueDistinct(entries: seq<Entry>, key: Bytes, value: Bytes)
    requires DistinctKeys(entries)
    ensures DistinctKeys(SetValue(entries, key, value))
    decreases |entries|
  {
    if |entries| > 0 {
      var rest := entries[1..];
      HeadDistinct(entries);
      if entries[0].key != key {
        SetValueDistinct(rest, key, value);
        ConsDistinct(entries[0], SetValue(rest, key, value));
      } else {
        WithoutDistinct(rest, key);
        ConsDistinct(Entry(key, [value]), Without(rest, key));
      }
    }
  }

  lemma {:induction false} WithoutDistinct(entries: seq<Entry>, key: Bytes)
    requires DistinctKeys(entries)
    ensures DistinctKeys(Without(entries, key))
    decreases |entries|
  {
    if |entries| > 0 {
      var rest := entries[1..];
      HeadDistinct(entries);
      WithoutDistinct(rest, key);
      if entries[0].key != key {
        ConsDistinct(entries[0], Without(rest, key));
      } else {
        assert Without(entries, key) == [] + Without(rest, key);
      }
    }
  }

  /** The first key of a map's entries is held by no later entry. */
  lemma HeadDistinct(entries: seq<Entry>)
    requires DistinctKeys(entries) && |entries| > 0
    ensures DistinctKeys(entries[1..])
    ensures forall e :: e in entries[1..] ==> e.key != entries[0].key
  {
    forall e | e in entries[1..] ensures e.key != entries[0].key {
      var m :| 0 <= m < |entries[1..]| && entries[1..][m] == e;
      assert entries[m + 1] == e;
    }
  }

  lemma ConsDistinct(x: Entry, t: seq<Entry>)
    requires DistinctKeys(t)
    requires forall e :: e in t ==> e.key != x.key
    ensures DistinctKeys([x] + t)
  {
    var r := [x] + t;
    forall i, j | 0 <= i < j < |r| ensures r[i].key != r[j].key {
      assert r[j] == t[j - 1];
      if i > 0 {
        assert r[i] == t[i - 1];
      }
    }
  }

  /** Setting a key no entry has adds it at the end. */
  lemma {:induction false} SetValueNew(entries: seq<Entry>, key: Bytes, value: Bytes)
    requires forall i :: 0 <= i < |entries| ==> entries[i].key != key
    ensures SetValue(entries, key, value) == entries + [Entry(key, [value])]
    decreases |entries|
  {
    if |entries| > 0 {
      SetValueNew(entries[1..], key, value);
      assert entries == [entries[0]] + entries[1..];
    }
  }

  /** `strings.ToLower(urlEncode(k))`. */
  function CanonicalKey(k: Bytes): Bytes
  {
    ToLower(UrlEncode(k))
  }

  function Repeat(x: Bytes, n: nat): (r: seq<Bytes>)
    ensures |r| == n && forall i :: 0 <= i < n ==> r[i] == x
  {
    if n == 0 then [] else [x] + Repeat(x, n - 1)
  }

  /** The key list before sorting: each canonical key once per value, in
      iteration order. */
  function RawKeys(entries: seq<Entry>): seq<Bytes>
  {
    if |entries| == 0 then []
    else
      var e := entries[|entries| - 1];
      RawKeys(entries[..|entries| - 1]) + Repeat(CanonicalKey(e.key), |e.values|)
  }

  /** `tmp`: canonical key to values; a later entry overwrites an earlier
      one whose key canonicalises the same. */
  function ValuesByKey(entries: seq<Entry>): map<Bytes, seq<Bytes>>
  {
    if |entries| == 0 then map[]
    else
      var e := entries[|entries| - 1];
      ValuesByKey(entries[..|entries| - 1])[CanonicalKey(e.key) := e.values]
  }

  lemma BytesOrderIsTotal()
    ensures Sorting.TotalPreorder(LessOrEqual)
  {
    forall a, b ensures LessOrEqual(a, b) || LessOrEqual(b, a) {
      LessOrEqualTotal(a, b);
    }
    forall a, b, c | LessOrEqual(a, b) && LessOrEqual(b, c) ensures LessOrEqual(a, c) {
      LessOrEqualTransitive(a, b, c);
    }
  }

  /** The sorted key list (`sort.Strings(keyList)`). */
  function KeyList(entries: seq<Entry>): (r: seq<Bytes>)
    ensures multiset(r) == multiset(RawKeys(entries))
    ensures forall i, j :: 0 <= i < j < |r| ==> LessOrEqual(r[i], r[j])
  {
    BytesOrderIsTotal();
    Sorting.Sort(RawKeys(entries), LessOrEqual)
  }

  function Lookup(m: map<Bytes, seq<Bytes>>, k: Bytes): seq<Bytes>
  {
    if k in m then m[k] else []
  }

  function Pairs(k: Bytes, values: seq<Bytes>): (r: seq<Bytes>)
    ensures |r| == |values|
    ensures forall i :: 0 <= i < |values| ==> r[i] == k + "=" + UrlEncode(values[i])
  {
    if |values| == 0 then [] else [k + "=" + UrlEncode(values[0])] + Pairs(k, values[1..])
  }

  /** The loop over the sorted keys with `pre`: a key equal to the one
      before it is skipped, and so is an empty key, since `pre` starts
      empty; every other key contributes one pair per value, values in
      their original order. */
  function ParamList(keys: seq<Bytes>, tmp: map<Bytes, seq<Bytes>>, pre: Bytes): seq<Bytes>
  {
    if |keys| == 0 then []
    else if keys[0] == pre then ParamList(keys[1..], tmp, pre)
    else Pairs(keys[0], Lookup(tmp, keys[0])) + ParamList(keys[1..], tmp, keys[0])
  }

  /** The pair of strings canonicalisation yields: the `;`-joined key list
      (`q-url-param-list` / `q-header-list`) and the `&`-joined pairs
      (`HttpParameters` / `HttpHeaders`). */
  datatype Canonical = Canonical(keyList: Bytes, pairs: Bytes)

  function Canonicalize(entries: seq<Entry>): Canonical
  {
    var keys := KeyList(entries);
    Canonical(Join(keys, ';'), Join(ParamList(keys, ValuesByKey(entries), []), '&'))
  }

  // ---------------------------------------------------------------------------
  // Properties of the canonical form

  lemma {:induction false} RawKeysCanonical(entries: seq<Entry>)
    ensures forall k :: k in RawKeys(entries) ==> exists e :: e in entries && k == CanonicalKey(e.key)
    decreases |entries|
  {
    if |entries| > 0 {
      var init := entries[..|entries| - 1];
      RawKeysCanonical(init);
      var e := entries[|entries| - 1];
      var tail := Repeat(CanonicalKey(e.key), |e.values|);
      assert RawKeys(entries) == RawKeys(init) + tail;
      forall k | k in RawKeys(entries) ensures exists d :: d in entries && k == CanonicalKey(d.key) {
        if k in RawKeys(init) {
          var d :| d in init && k == CanonicalKey(d.key);
          assert d in entries;
        } else {
          assert k in tail;
          assert e in entries;
        }
      }
    }
  }

  lemma {:induction false} RawKeysHas(entries: seq<Entry>, e: Entry)
    requires e in entries && |e.values| > 0
    ensures CanonicalKey(e.key) in RawKeys(entries)
    decreases |entries|
  {
    var init := entries[..|entries| - 1];
    var last := entries[|entries| - 1];
    var tail := Repeat(CanonicalKey(last.key), |last.values|);
    assert RawKeys(entries) == RawKeys(init) + tail;
    if e == last {
      assert tail[0] == CanonicalKey(e.key);
    } else {
      assert entries == init + [last];
      assert e in init;
      RawKeysHas(init, e);
    }
  }

  /** A key is in the signed key list exactly when some entry with at
      least one value canonicalises to it. */
  lemma KeyListHas(entries: seq<Entry>, e: Entry)
    requires e in entries && |e.values| > 0
    ensures CanonicalKey(e.key) in KeyList(entries)
  {
    RawKeysHas(entries, e);
    assert CanonicalKey(e.key) in multiset(RawKeys(entries));
  }

  /** A key of letters, digits and '-' is only lower-cased. */
  lemma CanonicalKeyPlain(k: Bytes)
    requires forall i :: 0 <= i < |k| ==> IsAlnum(k[i]) || k[i] == '-'
    ensures CanonicalKey(k) == ToLower(k)
  {
    assert !EscapedAny(k);
  }

  /** Every byte of a canonical key is URL-safe and not an upper-case
      letter; in particular none is one of the separators `; & = \n`. */
  predicate LowerSafe(k: Bytes)
  {
    forall c :: c in k ==> UrlSafe(c) && !IsUpperAscii(c)
  }

  lemma CanonicalKeyLowerSafe(k: Bytes)
    ensures LowerSafe(CanonicalKey(k))
  {
    var u := UrlEncode(k);
    var r := ToLower(u);
    forall c | c in r ensures UrlSafe(c) && !IsUpperAscii(c) {
      var i :| 0 <= i < |r| && r[i] == c;
      assert UrlSafe(u[i]);
    }
  }

  /** Each key in a canonical list is lower-case, URL-safe, and holds none
      of the separators `; & = \n`; the list is sorted and holds one entry
      per value of each map entry. */
  lemma KeyListShape(entries: seq<Entry>)
    ensures forall i :: 0 <= i < |KeyList(entries)| ==> LowerSafe(KeyList(entries)[i])
  {
    var keys := KeyList(entries);
    var raw := RawKeys(entries);
    assert multiset(keys) == multiset(raw);
    RawKeysCanonical(entries);
    forall i | 0 <= i < |keys| ensures LowerSafe(keys[i]) {
      var k := keys[i];
      assert k in multiset(keys);
      assert k in raw;
      var d :| d in entries && k == CanonicalKey(d.key);
      CanonicalKeyLowerSafe(d.key);
    }
  }

  /** None of the separators the signature layout uses can occur in a
      canonical key. */
  lemma SeparatorsAbsent(keys: seq<Bytes>)
    requires forall i :: 0 <= i < |keys| ==> LowerSafe(keys[i])
    ensures forall i :: 0 <= i < |keys| ==> ';' !in keys[i] && '&' !in keys[i] && '=' !in keys[i]
  {
  }

  /** Splitting `q-url-param-list` (or `q-header-list`) at ';' gives back
      the sorted key list, one entry per value. */
  lemma KeyListRoundTrip(entries: seq<Entry>)
    requires |KeyList(entries)| >= 1
    ensures Split(Canonicalize(entries).keyList, ';') == KeyList(entries)
  {
    var keys := KeyList(entries);
    KeyListShape(entries);
    SeparatorsAbsent(keys);
    SplitJoin(keys, ';');
  }

  /** One `key=value` pair splits at '=' into the key and the encoded
      value, and decoding that gives the value back. */
  lemma PairShape(k: Bytes, v: Bytes)
    requires '=' !in k
    ensures Split(k + "=" + UrlEncode(v), '=') == [k, UrlEncode(v)]
    ensures Decode(UrlEncode(v)) == v
  {
    var u := UrlEncode(v);
    assert '=' !in u by {
      forall c | c in u ensures c != '=' {
        var q :| 0 <= q < |u| && u[q] == c;
        assert UrlSafe(u[q]);
      }
    }
    SplitPeel(k, '=', u);
    SplitWithoutSeparator(u, '=');
    DecodeUrlEncode(v);
  }

  /** Each pair of the canonical parameter text splits at '=' into one of
      the keys and the encoded form of one of that key's values. */
  lemma {:induction false} ParamListShape(keys: seq<Bytes>, tmp: map<Bytes, seq<Bytes>>, pre: Bytes)
    requires forall i :: 0 <= i < |keys| ==> '=' !in keys[i]
    ensures forall p :: p in ParamList(keys, tmp, pre) ==>
              exists i, v :: 0 <= i < |keys| && v in Lookup(tmp, keys[i]) &&
                Split(p, '=') == [keys[i], UrlEncode(v)] && Decode(UrlEncode(v)) == v
    decreases |keys|
  {
    if |keys| > 0 {
      var next := if keys[0] == pre then pre else keys[0];
      ParamListShape(keys[1..], tmp, next);
      var vs := Lookup(tmp, keys[0]);
      var ps := ParamList(keys, tmp, pre);
      assert ps == (if keys[0] == pre then [] else Pairs(keys[0], vs)) + ParamList(keys[1..], tmp, next);
      forall p | p in ps
        ensures exists i, v :: 0 <= i < |keys| && v in Lookup(tmp, keys[i]) &&
                  Split(p, '=') == [keys[i], UrlEncode(v)] && Decode(UrlEncode(v)) == v
      {
        if keys[0] != pre && p in Pairs(keys[0], vs) {
          var m :| 0 <= m < |vs| && Pairs(keys[0], vs)[m] == p;
          PairShape(keys[0], vs[m]);
          assert vs[m] in Lookup(tmp, keys[0]);
        } else {
          assert p in ParamList(keys[1..], tmp, next);
          var i, v :| 0 <= i < |keys[1..]| && v in Lookup(tmp, keys[1..][i]) &&
                       Split(p, '=') == [keys[1..][i], UrlEncode(v)] && Decode(UrlEncode(v)) == v;
          assert keys[1..][i] == keys[i + 1];
        }
      }
    }
  }

  /** Every pair of each key is emitted: the loop drops a key only when it
      equals the one before it (or `pre`, for the first key). */
  lemma {:induction false} ParamListComplete(keys: seq<Bytes>, tmp: map<Bytes, seq<Bytes>>, pre: Bytes)
    ensures forall i, v :: 0 <= i < |keys| && keys[i] != pre && v in Lookup(tmp, keys[i]) ==>
              keys[i] + "=" + UrlEncode(v) in ParamList(keys, tmp, pre)
    decreases |keys|
  {
    if |keys| > 0 {
      var next := if keys[0] == pre then pre else keys[0];
      ParamListComplete(keys[1..], tmp, next);
      var ps := ParamList(keys, tmp, pre);
      var tail := ParamList(keys[1..], tmp, next);
      assert ps == (if keys[0] == pre then [] else Pairs(keys[0], Lookup(tmp, keys[0]))) + tail;
      forall i, v | 0 <= i < |keys| && keys[i] != pre && v in Lookup(tmp, keys[i])
        ensures keys[i] + "=" + UrlEncode(v) in ps
      {
        if keys[i] == keys[0] {
          var vs := Lookup(tmp, keys[0]);
          var m :| 0 <= m < |vs| && vs[m] == v;
          assert Pairs(keys[0], vs)[m] == keys[i] + "=" + UrlEncode(v);
        } else {
          assert keys[1..][i - 1] == keys[i];
        }
      }
    }
  }

  /** The keys the loop emits pairs for, in order: each key that differs
      from the one before it (from `pre`, for the first). */
  function RunHeads(keys: seq<Bytes>, pre: Bytes): seq<Bytes>
  {
    if |keys| == 0 then []
    else if keys[0] == pre then RunHeads(keys[1..], pre)
    else [keys[0]] + RunHeads(keys[1..], keys[0])
  }

  /** The pairs of each of `ks`, key after key. */
  function PairsOf(ks: seq<Bytes>, tmp: map<Bytes, seq<Bytes>>): seq<Bytes>
  {
    if |ks| == 0 then [] else Pairs(ks[0], Lookup(tmp, ks[0])) + PairsOf(ks[1..], tmp)
  }

  /** The parameter text is the pairs of the emitted keys, block by block. */
  lemma {:induction false} ParamListBlocks(keys: seq<Bytes>, tmp: map<Bytes, seq<Bytes>>, pre: Bytes)
    ensures ParamList(keys, tmp, pre) == PairsOf(RunHeads(keys, pre), tmp)
    decreases |keys|
  {
    if |keys| > 0 {
      if keys[0] == pre {
        ParamListBlocks(keys[1..], tmp, pre);
      } else {
        ParamListBlocks(keys[1..], tmp, keys[0]);
        var hs := RunHeads(keys, pre);
        assert hs[0] == keys[0] && hs[1..] == RunHeads(keys[1..], keys[0]);
      }
    }
  }

  /** Ascending, with no key twice. */
  predicate StrictlyAscending(ks: seq<Bytes>)
  {
    forall i, j :: 0 <= i < j < |ks| ==> ks[i] != ks[j] && LessOrEqual(ks[i], ks[j])
  }

  /** Over a sorted key list starting at or above `pre`, each key other
      than `pre` is emitted exactly once, in ascending order. */
  lemma {:induction false} RunHeadsOnce(keys: seq<Bytes>, pre: Bytes)
    requires forall i, j :: 0 <= i < j < |keys| ==> LessOrEqual(keys[i], keys[j])
    requires forall i :: 0 <= i < |keys| ==> LessOrEqual(pre, keys[i])
    ensures forall k :: k in RunHeads(keys, pre) <==> k in keys && k != pre
    ensures StrictlyAscending(RunHeads(keys, pre))
    decreases |keys|
  {
    if |keys| > 0 {
      var rest := keys[1..];
      assert forall i, j :: 0 <= i < j < |rest| ==> rest[i] == keys[i + 1] && rest[j] == keys[j + 1];
      if keys[0] == pre {
        RunHeadsOnce(rest, pre);
        assert RunHeads(keys, pre) == RunHeads(rest, pre);
        assert forall k :: k in keys <==> k == keys[0] || k in rest;
      } else {
        RunHeadsOnce(rest, keys[0]);
        var hs := RunHeads(keys, pre);
        var tail := RunHeads(rest, keys[0]);
        assert hs == [keys[0]] + tail;
        forall k | k in rest ensures k != pre && LessOrEqual(keys[0], k) {
          var m :| 0 <= m < |rest| && rest[m] == k;
          assert LessOrEqual(keys[0], keys[m + 1]);
          if k == pre {
            LessOrEqualAntisymmetric(pre, keys[0]);
          }
        }
        assert forall k :: k in keys <==> k == keys[0] || k in rest;
        AscendingCons(keys[0], tail);
      }
    }
  }

  /** A key below every key of a strictly ascending list, and distinct
      from them, extends it at the front. */
  lemma AscendingCons(h: Bytes, tail: seq<Bytes>)
    requires StrictlyAscending(tail)
    requires forall k :: k in tail ==> k != h && LessOrEqual(h, k)
    ensures StrictlyAscending([h] + tail)
  {
    var hs := [h] + tail;
    forall i, j | 0 <= i < j < |hs| ensures hs[i] != hs[j] && LessOrEqual(hs[i], hs[j]) {
      assert hs[j] == tail[j - 1] && tail[j - 1] in tail;
      if i > 0 {
        assert hs[i] == tail[i - 1];
        assert 0 <= i - 1 < j - 1 < |tail|;
      }
    }
  }

  /** What the canonical parameter (or header) text holds: for each
      distinct non-empty canonical key, once and in ascending order, the
      pairs of all its values in their order; the empty key is dropped. */
  lemma CanonicalPairs(entries: seq<Entry>)
    ensures var keys := KeyList(entries);
            var heads := RunHeads(keys, []);
            && Canonicalize(entries).pairs == Join(PairsOf(heads, ValuesByKey(entries)), '&')
            && (forall k :: k in heads <==> k in keys && k != [])
            && StrictlyAscending(heads)
  {
    var keys := KeyList(entries);
    ParamListBlocks(keys, ValuesByKey(entries), []);
    RunHeadsOnce(keys, []);
  }

  // ---------------------------------------------------------------------------
  // The signed text and the authorization value

  /** The collaborators that do the hashing: HMAC-SHA1(key, message) and
      SHA-1(message), as raw digests. */
  datatype Digests = Digests(hmacSha1: (Bytes, Bytes) -> Bytes, sha1: Bytes -> Bytes)

  function HexLowerDigit(d: int): Byte
    requires 0 <= d < 16
  {
    if d < 10 then ('0' as int + d) as char else ('a' as int + d - 10) as char
  }

  /** `fmt.Sprintf("%x", digest)`. */
  function HexLower(bs: Bytes): (r: Bytes)
    ensures |r| == 2 * |bs|
    ensures forall c :: c in r ==> IsDigit(c) || 'a' <= c <= 'f'
  {
    if |bs| == 0 then []
    else [HexLowerDigit(bs[0] as int / 16), HexLowerDigit(bs[0] as int % 16)] + HexLower(bs[1..])
  }

  const NanosPerSecond: int := 1_000_000_000

  /** `KeyTime`: `"<now.Unix()>;<now.Add(expiration).Unix()>"`, the clock
      and the expiration given in nanoseconds. `Unix()` rounds down. */
  function KeyTime(nowNanos: int, expirationNanos: int): Bytes
  {
    Itoa(nowNanos / NanosPerSecond) + ";" + Itoa((nowNanos + expirationNanos) / NanosPerSecond)
  }

  /** `HttpString`: the text whose SHA-1 is signed. */
  function HttpString(verb: Bytes, fileId: Bytes, parameters: Bytes, headers: Bytes): Bytes
  {
    ToLower(verb) + "\n/" + Paths.SuitFileId(fileId) + "\n" + parameters + "\n" + headers + "\n"
  }

  function StringToSign(keyTime: Bytes, httpString: Bytes, d: Digests): Bytes
  {
    "sha1\n" + keyTime + "\n" + HexLower(d.sha1(httpString)) + "\n"
  }

  function Signature(secretKey: Bytes, keyTime: Bytes, httpString: Bytes, d: Digests): Bytes
  {
    var signKey := HexLower(d.hmacSha1(secretKey, keyTime));
    HexLower(d.hmacSha1(signKey, StringToSign(keyTime, httpString, d)))
  }

  /** The credentials and clock a signature is made with. */
  datatype Signer = Signer(appKey: Bytes, secretKey: Bytes, nowNanos: int, digests: Digests)

  /** The seven `name=value` fields of the authorization, in order. */
  function AuthorizationFields(s: Signer, keyTime: Bytes, headerList: Bytes, paramList: Bytes,
                               signature: Bytes): seq<Bytes>
  {
    [ "q-sign-algorithm=sha1", "q-ak=" + s.appKey, "q-sign-time=" + keyTime,
      "q-key-time=" + keyTime, "q-header-list=" + headerList,
      "q-url-param-list=" + paramList, "q-signature=" + signature ]
  }

  /** `GenerateAuthorization(fileId, method, query, header, expiration)`. */
  function GenerateAuthorization(s: Signer, fileId: Bytes, verb: Bytes, query: seq<Entry>,
                                 header: seq<Entry>, expirationNanos: int): Bytes
  {
    var keyTime := KeyTime(s.nowNanos, expirationNanos);
    var q := Canonicalize(query);
    var h := Canonicalize(header);
    var text := HttpString(verb, fileId, q.pairs, h.pairs);
    Join(AuthorizationFields(s, keyTime, h.keyList, q.keyList,
                             Signature(s.secretKey, keyTime, text, s.digests)), '&')
  }

  lemma NoAmpersandInCanonical(entries: seq<Entry>)
    ensures '&' !in Canonicalize(entries).keyList
  {
    var keys := KeyList(entries);
    KeyListShape(entries);
    SeparatorsAbsent(keys);
    JoinAvoids(keys, ';', '&');
  }

  /** A joined list holds a byte only if a piece or the separator does. */
  lemma {:induction false} JoinAvoids(xs: seq<Bytes>, sep: Byte, c: Byte)
    requires c != sep
    requires forall i :: 0 <= i < |xs| ==> c !in xs[i]
    ensures c !in Join(xs, sep)
    decreases |xs|
  {
    if |xs| > 1 {
      JoinAvoids(xs[1..], sep, c);
    }
  }

  lemma KeyTimeFree(nowNanos: int, expirationNanos: int)
    ensures '&' !in KeyTime(nowNanos, expirationNanos)
  {
    var a, b := nowNanos / NanosPerSecond, (nowNanos + expirationNanos) / NanosPerSecond;
    if a >= 0 { NatToDecimalDigits(a); } else { NatToDecimalDigits(-a); }
    if b >= 0 { NatToDecimalDigits(b); } else { NatToDecimalDigits(-b); }
  }

  /** The seven fields come back from the joined value when none of the
      variable parts holds '&'. */
  lemma FieldsRoundTrip(s: Signer, keyTime: Bytes, headerList: Bytes, paramList: Bytes, signature: Bytes)
    requires '&' !in s.appKey && '&' !in keyTime && '&' !in headerList && '&' !in paramList
    requires '&' !in signature
    ensures Split(Join(AuthorizationFields(s, keyTime, headerList, paramList, signature), '&'), '&')
         == AuthorizationFields(s, keyTime, headerList, paramList, signature)
  {
    var fields := AuthorizationFields(s, keyTime, headerList, paramList, signature);
    forall i | 0 <= i < 7 ensures '&' !in fields[i] {
    }
    SplitJoin(fields, '&');
  }

  /** The authorization value splits at '&' into exactly its seven fields,
      in fixed order, with `q-sign-time` equal to `q-key-time`, whenever
      the app key holds no '&'. */
  lemma AuthorizationLayout(s: Signer, fileId: Bytes, verb: Bytes, query: seq<Entry>,
                            header: seq<Entry>, expirationNanos: int)
    requires '&' !in s.appKey
    ensures var auth := GenerateAuthorization(s, fileId, verb, query, header, expirationNanos);
            var fields := Split(auth, '&');
            && |fields| == 7
            && fields[0] == "q-sign-algorithm=sha1"
            && fields[1] == "q-ak=" + s.appKey
            && fields[2] == "q-sign-time=" + KeyTime(s.nowNanos, expirationNanos)
            && fields[3] == "q-key-time=" + KeyTime(s.nowNanos, expirationNanos)
            && fields[4] == "q-header-list=" + Canonicalize(header).keyList
            && fields[5] == "q-url-param-list=" + Canonicalize(query).keyList
            && fields[6] == "q-signature=" + Signature(s.secretKey, KeyTime(s.nowNanos, expirationNanos),
                 HttpString(verb, fileId, Canonicalize(query).pairs, Canonicalize(header).pairs), s.digests)
  {
    var keyTime := KeyTime(s.nowNanos, expirationNanos);
    var q := Canonicalize(query);
    var h := Canonicalize(header);
    var sig := Signature(s.secretKey, keyTime, HttpString(verb, fileId, q.pairs, h.pairs), s.digests);
    KeyTimeFree(s.nowNanos, expirationNanos);
    NoAmpersandInCanonical(query);
    NoAmpersandInCanonical(header);
    assert '&' !in sig;
    FieldsRoundTrip(s, keyTime, h.keyList, q.keyList, sig);
  }
}
