/**
 * The effect of restartDeployment's strategic merge patch: one annotation on
 * the pod template's metadata, set to the time of the restart.
 */
module Restart {
  import opened Kube
  import opened SecretUsage

  const RestartedAtAnnotation: string := "traktor.gdxcloud.net/restartedAt"

  /** An RFC 3339 date-time string, produced outside the model. */
  type Timestamp = string

  /**
   * The Deployment after the patch: the annotation is set or overwritten and
   * nothing else changes.
   */
  function Restarted(d: Deployment, now: Timestamp): (r: Deployment)
    ensures r.meta == d.meta && r.Key() == d.Key()
    ensures r.spec.replicas == d.spec.replicas && r.spec.selector == d.spec.selector
    ensures r.spec.template.spec == d.spec.template.spec
    ensures r.spec.template.meta.name == d.spec.template.meta.name
    ensures r.spec.template.meta.namespace == d.spec.template.meta.namespace
    ensures r.spec.template.meta.labels == d.spec.template.meta.labels
    ensures RestartedAtAnnotation in r.spec.template.meta.annotations
    ensures r.spec.template.meta.annotations[RestartedAtAnnotation] == now
    ensures r.spec.template.meta.annotations.Keys == d.spec.template.meta.annotations.Keys + {RestartedAtAnnotation}
    ensures forall k :: k in d.spec.template.meta.annotations && k != RestartedAtAnnotation ==>
      r.spec.template.meta.annotations[k] == d.spec.template.meta.annotations[k]
  {
    var tmeta := d.spec.template.meta;
    var annotations := tmeta.annotations[RestartedAtAnnotation := now];
    d.(spec := d.spec.(template := d.spec.template.(meta := tmeta.(annotations := annotations))))
  }

  /** Restarting again only moves the timestamp: the last write wins. */
  lemma RestartLastWriteWins(d: Deployment, t1: Timestamp, t2: Timestamp)
    ensures Restarted(Restarted(d, t1), t2) == Restarted(d, t2)
  {
    var a := Restarted(Restarted(d, t1), t2).spec.template.meta.annotations;
    var b := Restarted(d, t2).spec.template.meta.annotations;
    assert a == b;
  }

  /** Two restarts of the same Deployment differ in the timestamp and in nothing else. */
  lemma RestartsDifferOnlyInTimestamp(d: Deployment, t1: Timestamp, t2: Timestamp)
    ensures Restarted(d, t1) == Restarted(d, t2) <==> t1 == t2
  {
    if Restarted(d, t1) == Restarted(d, t2) {
      assert Restarted(d, t1).spec.template.meta.annotations[RestartedAtAnnotation] == t1;
    }
  }

  /** A restart does not change which Secrets the Deployment refers to. */
  lemma RestartKeepsReferences(d: Deployment, now: Timestamp, secretName: string)
    ensures SecretReferences(Restarted(d, now)) == SecretReferences(d)
    ensures DeploymentUsesSecret(Restarted(d, now), secretName) == DeploymentUsesSecret(d, secretName)
  {
  }
}
