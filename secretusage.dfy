/**
 * deploymentUsesSecret: an exact-name scan of a Deployment's pod template for
 * a Secret reference, in the order the controller checks them: volumes, the
 * env and envFrom of init and regular containers, those of ephemeral
 * containers, and imagePullSecrets.
 */
module SecretUsage {
  import opened Wrappers
  import opened Kube

  // Reference definition: every Secret name the pod template mentions.

  function VolumeSecretNames(vols: seq<Volume>): set<string>
  {
    set i | 0 <= i < |vols| && vols[i].secret.Some? :: vols[i].secret.value.secretName
  }

  function ContainerSecretNames(c: Container): set<string>
  {
    (set i | 0 <= i < |c.envFrom| && c.envFrom[i].secretRef.Some? :: c.envFrom[i].secretRef.value.name)
    + (set i | 0 <= i < |c.env| && c.env[i].valueFrom.Some? && c.env[i].valueFrom.value.secretKeyRef.Some?
         :: c.env[i].valueFrom.value.secretKeyRef.value.name)
  }

  function ContainersSecretNames(cs: seq<Container>): set<string>
  {
    set i, n | 0 <= i < |cs| && n in ContainerSecretNames(cs[i]) :: n
  }

  function EphemeralSecretNames(ecs: seq<EphemeralContainer>): set<string>
  {
    set i, n | 0 <= i < |ecs| && n in ContainerSecretNames(ecs[i].common) :: n
  }

  function PullSecretNames(refs: seq<LocalObjectReference>): set<string>
  {
    set i | 0 <= i < |refs| :: refs[i].name
  }

  /** The names of all Secrets a Deployment's pod template refers to. */
  function SecretReferences(d: Deployment): set<string>
  {
    var pod := d.spec.template.spec;
    VolumeSecretNames(pod.volumes)
    + ContainersSecretNames(pod.initContainers)
    + ContainersSecretNames(pod.containers)
    + EphemeralSecretNames(pod.ephemeralContainers)
    + PullSecretNames(pod.imagePullSecrets)
  }

  // The scans as the controller runs them, each stopping at the first hit.

  function VolumesUse(vols: seq<Volume>, secretName: string): bool
  {
    if |vols| == 0 then false
    else if vols[0].secret.Some? && vols[0].secret.value.secretName == secretName then true
    else VolumesUse(vols[1..], secretName)
  }

  function EnvFromUses(efs: seq<EnvFromSource>, secretName: string): bool
  {
    if |efs| == 0 then false
    else if efs[0].secretRef.Some? && efs[0].secretRef.value.name == secretName then true
    else EnvFromUses(efs[1..], secretName)
  }

  function EnvUses(envs: seq<EnvVar>, secretName: string): bool
  {
    if |envs| == 0 then false
    else if envs[0].valueFrom.Some? && envs[0].valueFrom.value.secretKeyRef.Some?
      && envs[0].valueFrom.value.secretKeyRef.value.name == secretName then true
    else EnvUses(envs[1..], secretName)
  }

  /** One container: envFrom first, then env. */
  function ContainerUses(c: Container, secretName: string): bool
  {
    EnvFromUses(c.envFrom, secretName) || EnvUses(c.env, secretName)
  }

  function ContainersUse(cs: seq<Container>, secretName: string): bool
  {
    if |cs| == 0 then false
    else if ContainerUses(cs[0], secretName) then true
    else ContainersUse(cs[1..], secretName)
  }

  function EphemeralContainersUse(ecs: seq<EphemeralContainer>, secretName: string): bool
  {
    if |ecs| == 0 then false
    else if ContainerUses(ecs[0].common, secretName) then true
    else EphemeralContainersUse(ecs[1..], secretName)
  }

  function PullSecretsUse(refs: seq<LocalObjectReference>, secretName: string): bool
  {
    if |refs| == 0 then false
    else if refs[0].name == secretName then true
    else PullSecretsUse(refs[1..], secretName)
  }

  /** deploymentUsesSecret: volumes, then init and regular containers, then ephemeral ones, then pull secrets. */
  function DeploymentUsesSecret(d: Deployment, secretName: string): bool
  {
    var pod := d.spec.template.spec;
    var allContainers := pod.initContainers + pod.containers;
    VolumesUse(pod.volumes, secretName)
    || ContainersUse(allContainers, secretName)
    || EphemeralContainersUse(pod.ephemeralContainers, secretName)
    || PullSecretsUse(pod.imagePullSecrets, secretName)
  }

  // Each scan finds exactly the names of the reference definition.

  lemma {:induction false} VolumesUseIff(vols: seq<Volume>, secretName: string)
    ensures VolumesUse(vols, secretName) <==> secretName in VolumeSecretNames(vols)
    decreases |vols|
  {
    if |vols| > 0 {
      VolumesUseIff(vols[1..], secretName);
      assert vols == [vols[0]] + vols[1..];
      if secretName in VolumeSecretNames(vols) && !(vols[0].secret.Some? && vols[0].secret.value.secretName == secretName) {
        var i :| 0 <= i < |vols| && vols[i].secret.Some? && vols[i].secret.value.secretName == secretName;
        assert vols[1..][i - 1] == vols[i];
      }
      if secretName in VolumeSecretNames(vols[1..]) {
        var i :| 0 <= i < |vols[1..]| && vols[1..][i].secret.Some? && vols[1..][i].secret.value.secretName == secretName;
        assert vols[i + 1] == vols[1..][i];
      }
    }
  }

  lemma {:induction false} EnvFromUsesIff(efs: seq<EnvFromSource>, secretName: string)
    ensures EnvFromUses(efs, secretName) <==>
      exists i :: 0 <= i < |efs| && efs[i].secretRef == Some(LocalObjectReference(secretName))
    decreases |efs|
  {
    if |efs| > 0 {
      EnvFromUsesIff(efs[1..], secretName);
      if EnvFromUses(efs[1..], secretName) {
        var i :| 0 <= i < |efs[1..]| && efs[1..][i].secretRef == Some(LocalObjectReference(secretName));
        assert efs[i + 1] == efs[1..][i];
      }
      if exists i :: 0 <= i < |efs| && efs[i].secretRef == Some(LocalObjectReference(secretName)) {
        var i :| 0 <= i < |efs| && efs[i].secretRef == Some(LocalObjectReference(secretName));
        if i > 0 {
          assert efs[1..][i - 1] == efs[i];
        }
      }
    }
  }

  /** An env var sourced from a key of the named Secret. */
  predicate EnvVarRefers(v: EnvVar, secretName: string)
  {
    v.valueFrom.Some? && v.valueFrom.value.secretKeyRef.Some? && v.valueFrom.value.secretKeyRef.value.name == secretName
  }

  lemma {:induction false} EnvUsesIff(envs: seq<EnvVar>, secretName: string)
    ensures EnvUses(envs, secretName) <==> exists i :: 0 <= i < |envs| && EnvVarRefers(envs[i], secretName)
    decreases |envs|
  {
    if |envs| > 0 {
      EnvUsesIff(envs[1..], secretName);
      if EnvUses(envs[1..], secretName) {
        var i :| 0 <= i < |envs[1..]| && EnvVarRefers(envs[1..][i], secretName);
        assert envs[i + 1] == envs[1..][i];
      }
      if exists i :: 0 <= i < |envs| && EnvVarRefers(envs[i], secretName) {
        var i :| 0 <= i < |envs| && EnvVarRefers(envs[i], secretName);
        if i > 0 {
          assert envs[1..][i - 1] == envs[i];
        }
      }
    }
  }

  lemma ContainerUsesIff(c: Container, secretName: string)
    ensures ContainerUses(c, secretName) <==> secretName in ContainerSecretNames(c)
  {
    EnvFromUsesIff(c.envFrom, secretName);
    EnvUsesIff(c.env, secretName);
    if secretName in ContainerSecretNames(c) {
      if !exists i :: 0 <= i < |c.envFrom| && c.envFrom[i].secretRef == Some(LocalObjectReference(secretName)) {
        var i :| 0 <= i < |c.env| && c.env[i].valueFrom.Some? && c.env[i].valueFrom.value.secretKeyRef.Some?
          && c.env[i].valueFrom.value.secretKeyRef.value.name == secretName;
        assert EnvVarRefers(c.env[i], secretName);
      }
    }
    if EnvUses(c.env, secretName) {
      var i :| 0 <= i < |c.env| && EnvVarRefers(c.env[i], secretName);
      assert secretName == c.env[i].valueFrom.value.secretKeyRef.value.name;
    }
  }

  lemma {:induction false} ContainersUseIff(cs: seq<Container>, secretName: string)
    ensures ContainersUse(cs, secretName) <==> secretName in ContainersSecretNames(cs)
    decreases |cs|
  {
    if |cs| > 0 {
      ContainerUsesIff(cs[0], secretName);
      ContainersUseIff(cs[1..], secretName);
      if secretName in ContainersSecretNames(cs[1..]) {
        var i :| 0 <= i < |cs[1..]| && secretName in ContainerSecretNames(cs[1..][i]);
        assert cs[i + 1] == cs[1..][i];
      }
      if secretName in ContainersSecretNames(cs) {
        var i :| 0 <= i < |cs| && secretName in ContainerSecretNames(cs[i]);
        if i > 0 {
          assert cs[1..][i - 1] == cs[i];
        }
      }
    }
  }

  lemma {:induction false} EphemeralContainersUseIff(ecs: seq<EphemeralContainer>, secretName: string)
    ensures EphemeralContainersUse(ecs, secretName) <==> secretName in EphemeralSecretNames(ecs)
    decreases |ecs|
  {
    if |ecs| > 0 {
      ContainerUsesIff(ecs[0].common, secretName);
      EphemeralContainersUseIff(ecs[1..], secretName);
      if secretName in EphemeralSecretNames(ecs[1..]) {
        var i :| 0 <= i < |ecs[1..]| && secretName in ContainerSecretNames(ecs[1..][i].common);
        assert ecs[i + 1] == ecs[1..][i];
      }
      if secretName in EphemeralSecretNames(ecs) {
        var i :| 0 <= i < |ecs| && secretName in ContainerSecretNames(ecs[i].common);
        if i > 0 {
          assert ecs[1..][i - 1] == ecs[i];
        }
      }
    }
  }

  lemma {:induction false} PullSecretsUseIff(refs: seq<LocalObjectReference>, secretName: string)
    ensures PullSecretsUse(refs, secretName) <==> secretName in PullSecretNames(refs)
    decreases |refs|
  {
    if |refs| > 0 {
      PullSecretsUseIff(refs[1..], secretName);
      if secretName in PullSecretNames(refs[1..]) {
        var i :| 0 <= i < |refs[1..]| && refs[1..][i].name == secretName;
        assert refs[i + 1] == refs[1..][i];
      }
      if secretName in PullSecretNames(refs) {
        var i :| 0 <= i < |refs| && refs[i].name == secretName;
        if i > 0 {
          assert refs[1..][i - 1] == refs[i];
        }
      }
    }
  }

  /**
   * deploymentUsesSecret is true exactly when the name is one the pod
   * template refers to, by exact string equality, in any of the four
   * reference classes.
   */
  lemma DeploymentUsesSecretIff(d: Deployment, secretName: string)
    ensures DeploymentUsesSecret(d, secretName) <==> secretName in SecretReferences(d)
  {
    var pod := d.spec.template.spec;
    VolumesUseIff(pod.volumes, secretName);
    ContainersUseIff(pod.initContainers + pod.containers, secretName);
    ContainersSecretNamesAppend(pod.initContainers, pod.containers);
    EphemeralContainersUseIff(pod.ephemeralContainers, secretName);
    PullSecretsUseIff(pod.imagePullSecrets, secretName);
  }

  lemma ContainersSecretNamesAppend(a: seq<Container>, b: seq<Container>)
    ensures ContainersSecretNames(a + b) == ContainersSecretNames(a) + ContainersSecretNames(b)
  {
    var ab := a + b;
    forall n ensures n in ContainersSecretNames(ab) <==> n in ContainersSecretNames(a) + ContainersSecretNames(b) {
      if n in ContainersSecretNames(ab) {
        var i :| 0 <= i < |ab| && n in ContainerSecretNames(ab[i]);
        if i < |a| {
          assert ab[i] == a[i];
        } else {
          assert ab[i] == b[i - |a|];
        }
      }
      if n in ContainersSecretNames(a) {
        var i :| 0 <= i < |a| && n in ContainerSecretNames(a[i]);
        assert ab[i] == a[i];
      }
      if n in ContainersSecretNames(b) {
        var i :| 0 <= i < |b| && n in ContainerSecretNames(b[i]);
        assert ab[|a| + i] == b[i];
      }
    }
  }

  /** A Deployment that names the Secret nowhere is never matched. */
  lemma UnreferencedNeverMatched(d: Deployment, secretName: string)
    requires secretName !in SecretReferences(d)
    ensures !DeploymentUsesSecret(d, secretName)
  {
    DeploymentUsesSecretIff(d, secretName);
  }

  /** A pull secret alone is enough for a match. */
  lemma PullSecretAloneMatches(d: Deployment, secretName: string)
    requires LocalObjectReference(secretName) in d.spec.template.spec.imagePullSecrets
    ensures DeploymentUsesSecret(d, secretName)
  {
    var refs := d.spec.template.spec.imagePullSecrets;
    var i :| 0 <= i < |refs| && refs[i] == LocalObjectReference(secretName);
    assert secretName in PullSecretNames(refs);
    DeploymentUsesSecretIff(d, secretName);
  }

  /** Among several envFrom Secret references of a container, any one matches, whatever its position. */
  lemma EnvFromReferenceMatches(d: Deployment, c: nat, j: nat, secretName: string)
    requires c < |d.spec.template.spec.containers|
    requires j < |d.spec.template.spec.containers[c].envFrom|
    requires d.spec.template.spec.containers[c].envFrom[j].secretRef == Some(LocalObjectReference(secretName))
    ensures DeploymentUsesSecret(d, secretName)
  {
    var cs := d.spec.template.spec.containers;
    assert secretName in ContainerSecretNames(cs[c]);
    assert secretName in ContainersSecretNames(cs);
    DeploymentUsesSecretIff(d, secretName);
  }
}
