/**
 * The event predicates installed on the Secret watch: Create, Delete and
 * Generic events are dropped; an Update event passes only when both objects
 * are Secrets whose data fingerprints differ.
 */
module ChangeFilter {
  import opened Wrappers
  import opened ByteOrder
  import opened Kube
  import opened SecretHash

  /** A watched object: a (possibly nil) *Secret, or an object of another kind. */
  datatype Object = SecretObject(secret: Option<Secret>) | OtherObject(kind: string)

  datatype Event =
    | CreateEvent(object: Object)
    | UpdateEvent(objectOld: Object, objectNew: Object)
    | DeleteEvent(object: Object)
    | GenericEvent(object: Object)

  /** Which events the predicates let into the work queue. */
  ghost predicate Admits(e: Event)
  {
    match e
    case UpdateEvent(o, n) =>
      o.SecretObject? && n.SecretObject? && HashOf(o.secret) != HashOf(n.secret)
    case _ => false
  }

  /** UpdateFunc: both objects must be Secrets; compare their fingerprints. */
  method UpdateFunc(objectOld: Object, objectNew: Object) returns (admit: bool)
    ensures admit <==> Admits(UpdateEvent(objectOld, objectNew))
  {
    if !objectOld.SecretObject? || !objectNew.SecretObject? {
      return false;
    }
    var oldDataHash := HashSecretData(objectOld.secret);
    var newDataHash := HashSecretData(objectNew.secret);
    admit := oldDataHash != newDataHash;
  }

  /** predicate.Funcs: each event kind goes to its own closure. */
  method Filter(e: Event) returns (admit: bool)
    ensures admit <==> Admits(e)
  {
    match e
    case CreateEvent(_) => admit := false;
    case UpdateEvent(o, n) => admit := UpdateFunc(o, n);
    case DeleteEvent(_) => admit := false;
    case GenericEvent(_) => admit := false;
  }

  /** Create, Delete and Generic events never pass. */
  lemma OnlyUpdatesAdmitted(e: Event)
    requires Admits(e)
    ensures e.UpdateEvent? && e.objectOld.SecretObject? && e.objectNew.SecretObject?
  {
  }

  /** An update that leaves Data alone is dropped, whatever it does to labels, annotations or name. */
  lemma MetadataOnlyUpdateDropped(s1: Secret, s2: Secret)
    requires s1.data == s2.data
    ensures !Admits(UpdateEvent(SecretObject(Some(s1)), SecretObject(Some(s2))))
  {
  }

  /** A nil Secret and a Secret with empty Data share the empty fingerprint. */
  lemma NilLikeEmpty(s: Secret)
    requires s.data == map[]
    ensures HashOf(None) == HashOf(Some(s)) == []
    ensures !Admits(UpdateEvent(SecretObject(None), SecretObject(Some(s))))
  {
    assert s.data.Keys == {};
    assert SortedKeys(s.data.Keys) == [];
  }

  /** When the filter passes an update, the Secret's data did change. */
  lemma AdmittedMeansDataChanged(s1: Secret, s2: Secret)
    requires Admits(UpdateEvent(SecretObject(Some(s1)), SecretObject(Some(s2))))
    ensures s1.data != s2.data
  {
  }

  /**
   * Conversely, a data change passes the filter as long as no key holds '='
   * and no value holds ';'.
   */
  lemma DataChangeAdmitted(s1: Secret, s2: Secret)
    requires NoDelimiters(s1.data) && NoDelimiters(s2.data)
    requires s1.data != s2.data
    ensures Admits(UpdateEvent(SecretObject(Some(s1)), SecretObject(Some(s2))))
  {
    if Fingerprint(s1.data) == Fingerprint(s2.data) {
      FingerprintInjective(s1.data, s2.data);
    }
  }

  /** Without that side condition a real data change can be dropped. */
  lemma DataChangeCanBeDropped()
    ensures exists s1: Secret, s2: Secret ::
      s1.data != s2.data && !Admits(UpdateEvent(SecretObject(Some(s1)), SecretObject(Some(s2))))
  {
    var d1, d2 := FingerprintCollision();
    var meta := ObjectMeta("s", "ns", map[], map[]);
    var s1, s2 := Secret(meta, d1), Secret(meta, d2);
    assert !Admits(UpdateEvent(SecretObject(Some(s1)), SecretObject(Some(s2))));
  }
}
