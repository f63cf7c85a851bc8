/**
 * hashSecretData: the fingerprint used to tell a content change from a
 * metadata-only update. The keys of Secret.data are sorted and every pair is
 * written as `key=value;`. Labels, annotations and StringData play no part.
 */
module SecretHash {
  import opened Wrappers
  import opened ByteOrder
  import opened Kube

  /** The bytes of '=' and ';'. */
  const EQ: byte := 61
  const SEMI: byte := 59

  function Entry(k: Bytes, v: Bytes): Bytes
  {
    k + [EQ] + v + [SEMI]
  }

  /** The `key=value;` concatenation over `keys`, in the order given. */
  function Serialize(keys: seq<Bytes>, data: map<Bytes, Bytes>): Bytes
    requires forall k :: k in keys ==> k in data
  {
    if |keys| == 0 then [] else Entry(keys[0], data[keys[0]]) + Serialize(keys[1..], data)
  }

  /** The canonical fingerprint of a data map: its entries in ascending key order. */
  ghost function Fingerprint(data: map<Bytes, Bytes>): Bytes
  {
    Serialize(SortedKeys(data.Keys), data)
  }

  /** What hashSecretData returns for a possibly nil secret. */
  ghost function HashOf(secret: Option<Secret>): Bytes
  {
    match secret
    case None => []
    case Some(s) => Fingerprint(s.data)
  }

  lemma {:induction false} SerializeSnoc(keys: seq<Bytes>, k: Bytes, data: map<Bytes, Bytes>)
    requires forall x :: x in keys ==> x in data
    requires k in data
    ensures Serialize(keys + [k], data) == Serialize(keys, data) + Entry(k, data[k])
    decreases |keys|
  {
    if |keys| == 0 {
      assert keys + [k] == [k];
    } else {
      assert (keys + [k])[1..] == keys[1..] + [k];
      SerializeSnoc(keys[1..], k, data);
    }
  }

  /** An element at two positions is counted at least twice. */
  lemma RepeatCountsTwice(s: seq<Bytes>, i: nat, j: nat)
    requires i < j < |s|
    ensures s[i] == s[j] ==> multiset(s)[s[j]] >= 2
  {
    assert s == s[..j] + s[j..];
    assert s[i] in s[..j] && s[j] in s[j..];
    assert multiset(s)[s[j]] == multiset(s[..j])[s[j]] + multiset(s[j..])[s[j]];
  }

  /** A sequence whose multiset is that of a set holds no element twice. */
  lemma NoDuplicatesFromSetMultiset(s: seq<Bytes>, ks: set<Bytes>)
    requires multiset(s) == multiset(ks)
    ensures forall i, j :: 0 <= i < j < |s| ==> s[i] != s[j]
    ensures forall k :: k in s <==> k in ks
  {
    forall i, j | 0 <= i < j < |s| ensures s[i] != s[j] {
      RepeatCountsTwice(s, i, j);
      assert multiset(ks)[s[j]] <= 1;
    }
    forall k ensures k in s <==> k in ks {
      assert k in s <==> k in multiset(s);
    }
  }

  /** Sorting any enumeration of a key set gives its canonical order. */
  lemma SortedEnumerationIsCanonical(keys: seq<Bytes>, ks: set<Bytes>)
    requires multiset(keys) == multiset(ks)
    ensures SortStrings(keys) == SortedKeys(ks)
  {
    var sorted := SortStrings(keys);
    NoDuplicatesFromSetMultiset(sorted, ks);
    SortedDistinctIsStrict(sorted);
    StrictlySortedUnique(sorted, SortedKeys(ks));
  }

  /**
   * hashSecretData: copy the keys out of the map (in whatever order the map
   * yields them), sort them, and append `key=value;` for each.
   */
  method HashSecretData(secret: Option<Secret>) returns (h: Bytes)
    ensures h == HashOf(secret)
  {
    if secret.None? {
      return [];
    }
    var data := secret.value.data;

    var keys: seq<Bytes> := [];
    var remaining := data.Keys;
    while remaining != {}
      invariant remaining <= data.Keys
      invariant multiset(keys) == multiset(data.Keys - remaining)
      decreases |remaining|
    {
      var k :| k in remaining;
      assert data.Keys - (remaining - {k}) == (data.Keys - remaining) + {k};
      keys := keys + [k];
      remaining := remaining - {k};
    }
    assert data.Keys - remaining == data.Keys;
    SortedEnumerationIsCanonical(keys, data.Keys);
    keys := SortStrings(keys);

    h := WriteEntries(keys, data);
  }

  /** The strings.Builder loop: `key=value;` for each key, in the order given. */
  method WriteEntries(keys: seq<Bytes>, data: map<Bytes, Bytes>) returns (b: Bytes)
    requires forall k :: k in keys ==> k in data
    ensures b == Serialize(keys, data)
  {
    b := [];
    var i := 0;
    while i < |keys|
      invariant 0 <= i <= |keys|
      invariant b == Serialize(keys[..i], data)
    {
      var k := keys[i];
      b := b + k;
      b := b + [EQ];
      b := b + data[k];
      b := b + [SEMI];
      assert keys[..i + 1] == keys[..i] + [k];
      SerializeSnoc(keys[..i], k, data);
      i := i + 1;
    }
    assert keys[..|keys|] == keys;
  }

  /** Keys without '=' and values without ';': the encoding can then be read back. */
  ghost predicate NoDelimiters(data: map<Bytes, Bytes>)
  {
    forall k :: k in data ==> EQ !in k && SEMI !in data[k]
  }

  /** Splitting at the first occurrence of a separator is unique. */
  lemma SplitAtSeparator(a: Bytes, x: Bytes, b: Bytes, y: Bytes, c: byte)
    requires c !in a && c !in b
    requires a + [c] + x == b + [c] + y
    ensures a == b && x == y
  {
    var l := a + [c] + x;
    assert l[|a|] == c;
    assert l[|b|] == c;
    assert a == l[..|a|] && b == (b + [c] + y)[..|b|];
    assert x == l[|a| + 1..] && y == (b + [c] + y)[|b| + 1..];
  }

  lemma EntryUnique(k1: Bytes, v1: Bytes, r1: Bytes, k2: Bytes, v2: Bytes, r2: Bytes)
    requires EQ !in k1 && EQ !in k2 && SEMI !in v1 && SEMI !in v2
    requires Entry(k1, v1) + r1 == Entry(k2, v2) + r2
    ensures k1 == k2 && v1 == v2 && r1 == r2
  {
    assert Entry(k1, v1) + r1 == k1 + [EQ] + (v1 + [SEMI] + r1);
    assert Entry(k2, v2) + r2 == k2 + [EQ] + (v2 + [SEMI] + r2);
    SplitAtSeparator(k1, v1 + [SEMI] + r1, k2, v2 + [SEMI] + r2, EQ);
    SplitAtSeparator(v1, r1, v2, r2, SEMI);
  }

  lemma {:induction false} SerializeInjective(ks1: seq<Bytes>, d1: map<Bytes, Bytes>, ks2: seq<Bytes>, d2: map<Bytes, Bytes>)
    requires forall k :: k in ks1 ==> k in d1
    requires forall k :: k in ks2 ==> k in d2
    requires NoDelimiters(d1) && NoDelimiters(d2)
    requires Serialize(ks1, d1) == Serialize(ks2, d2)
    ensures ks1 == ks2
    ensures forall k :: k in ks1 ==> d1[k] == d2[k]
    decreases |ks1|
  {
    if |ks1| > 0 && |ks2| > 0 {
      EntryUnique(ks1[0], d1[ks1[0]], Serialize(ks1[1..], d1), ks2[0], d2[ks2[0]], Serialize(ks2[1..], d2));
      SerializeInjective(ks1[1..], d1, ks2[1..], d2);
      assert ks1 == [ks1[0]] + ks1[1..] && ks2 == [ks2[0]] + ks2[1..];
    }
  }

  /**
   * When no key holds '=' and no value holds ';', equal fingerprints mean
   * equal data: the only way a content change escapes the filter is through
   * those bytes.
   */
  lemma FingerprintInjective(d1: map<Bytes, Bytes>, d2: map<Bytes, Bytes>)
    requires NoDelimiters(d1) && NoDelimiters(d2)
    requires Fingerprint(d1) == Fingerprint(d2)
    ensures d1 == d2
  {
    var ks1, ks2 := SortedKeys(d1.Keys), SortedKeys(d2.Keys);
    SerializeInjective(ks1, d1, ks2, d2);
    assert d1.Keys == d2.Keys;
  }

  /**
   * The fingerprint is not injective in general: {"a": "b;c=d"} and
   * {"a": "b", "c": "d"} both serialize to "a=b;c=d;".
   */
  lemma FingerprintCollision() returns (d1: map<Bytes, Bytes>, d2: map<Bytes, Bytes>)
    ensures d1 != d2 && Fingerprint(d1) == Fingerprint(d2)
  {
    var a, b, c, d: Bytes := [97], [98], [99], [100];
    d1 := map[a := b + [SEMI] + c + [EQ] + d];
    d2 := map[a := b, c := d];
    assert c in d2 && c !in d1;
    FingerprintOfOne(a, b + [SEMI] + c + [EQ] + d);
    FingerprintOfTwo(a, b, c, d);
    EntrySplice(a, b, c, d);
  }

  /** A value holding `;k2=` followed by v2 encodes like two entries. */
  lemma EntrySplice(k1: Bytes, v1: Bytes, k2: Bytes, v2: Bytes)
    ensures Entry(k1, v1 + [SEMI] + k2 + [EQ] + v2) == Entry(k1, v1) + Entry(k2, v2)
  {
  }

  lemma FingerprintOfOne(a: Bytes, v: Bytes)
    ensures Fingerprint(map[a := v]) == Entry(a, v)
  {
    var m := map[a := v];
    StrictlySortedUnique(SortedKeys(m.Keys), [a]);
    assert Serialize([a], m) == Entry(a, v) + Serialize([], m);
  }

  lemma FingerprintOfTwo(a: Bytes, b: Bytes, c: Bytes, d: Bytes)
    requires Less(a, c)
    ensures Fingerprint(map[a := b, c := d]) == Entry(a, b) + Entry(c, d)
  {
    var m := map[a := b, c := d];
    LessIrreflexive(a);
    assert a != c;
    StrictlySortedUnique(SortedKeys(m.Keys), [a, c]);
    var ac: seq<Bytes> := [a, c];
    assert ac[1..] == [c] && ac[1..][1..] == [];
    assert Serialize([c], m) == Entry(c, d);
  }
}
