/**
 * The slice of the Kubernetes object model the controller reads: Secrets,
 * Namespaces, Deployments with their pod templates, the SecretsRefresh
 * policy, reconcile requests, and label selectors with their matching rules.
 */
module Kube {
  import opened Wrappers
  import opened ByteOrder

  type Labels = map<string, string>

  /** Namespace and name of a namespaced object (client.ObjectKey). */
  datatype ObjectKey = ObjectKey(namespace: string, name: string)

  /** A reconcile request (ctrl.Request); the controller fills it with a Secret's key. */
  datatype Request = Request(namespacedName: ObjectKey)

  datatype ObjectMeta = ObjectMeta(
    name: string,
    namespace: string,
    labels: Labels,
    annotations: map<string, string>)

  /** A Secret: `data` maps byte-string keys to byte-string values. */
  datatype Secret = Secret(meta: ObjectMeta, data: map<Bytes, Bytes>)

  datatype Namespace = Namespace(meta: ObjectMeta)

  // Label selectors (metav1.LabelSelector).

  datatype Operator = In | NotIn | Exists | DoesNotExist | Unrecognized(name: string)

  datatype Requirement = Requirement(key: string, operator: Operator, values: seq<string>)

  datatype LabelSelector = LabelSelector(
    matchLabels: map<string, string>,
    matchExpressions: seq<Requirement>)

  /** In and NotIn need values, Exists and DoesNotExist must have none, other operators are refused. */
  predicate ValidRequirement(req: Requirement)
  {
    match req.operator
    case In => |req.values| > 0
    case NotIn => |req.values| > 0
    case Exists => |req.values| == 0
    case DoesNotExist => |req.values| == 0
    case Unrecognized(_) => false
  }

  /** Whether the selector converts to a labels.Selector without error. */
  predicate ValidSelector(sel: LabelSelector)
  {
    forall i :: 0 <= i < |sel.matchExpressions| ==> ValidRequirement(sel.matchExpressions[i])
  }

  predicate RequirementMatches(req: Requirement, labels: Labels)
  {
    match req.operator
    case In => req.key in labels && labels[req.key] in req.values
    case NotIn => req.key !in labels || labels[req.key] !in req.values
    case Exists => req.key in labels
    case DoesNotExist => req.key !in labels
    case Unrecognized(_) => false
  }

  /** All matchLabels pairs are present and every expression holds (an empty selector matches everything). */
  predicate SelectorMatches(sel: LabelSelector, labels: Labels)
  {
    && (forall k :: k in sel.matchLabels ==> k in labels && labels[k] == sel.matchLabels[k])
    && (forall i :: 0 <= i < |sel.matchExpressions| ==> RequirementMatches(sel.matchExpressions[i], labels))
  }

  /** The SecretsRefresh policy: optional namespace and secret selectors. */
  datatype SecretsRefresh = SecretsRefresh(
    meta: ObjectMeta,
    namespaceSelector: Option<LabelSelector>,
    secretSelector: Option<LabelSelector>)

  // Deployments and the parts of their pod template that can name a Secret.

  datatype LocalObjectReference = LocalObjectReference(name: string)

  datatype SecretVolumeSource = SecretVolumeSource(secretName: string)

  datatype Volume = Volume(
    name: string,
    secret: Option<SecretVolumeSource>,
    configMap: Option<LocalObjectReference>)

  datatype EnvFromSource = EnvFromSource(
    configMapRef: Option<LocalObjectReference>,
    secretRef: Option<LocalObjectReference>)

  datatype KeySelector = KeySelector(name: string, key: string)

  datatype EnvVarSource = EnvVarSource(
    configMapKeyRef: Option<KeySelector>,
    secretKeyRef: Option<KeySelector>)

  datatype EnvVar = EnvVar(name: string, value: string, valueFrom: Option<EnvVarSource>)

  datatype Container = Container(
    name: string,
    image: string,
    envFrom: seq<EnvFromSource>,
    env: seq<EnvVar>)

  /** An ephemeral container carries the same fields as a container, plus its target. */
  datatype EphemeralContainer = EphemeralContainer(common: Container, targetContainerName: string)

  datatype PodSpec = PodSpec(
    volumes: seq<Volume>,
    initContainers: seq<Container>,
    containers: seq<Container>,
    ephemeralContainers: seq<EphemeralContainer>,
    imagePullSecrets: seq<LocalObjectReference>)

  datatype PodTemplateSpec = PodTemplateSpec(meta: ObjectMeta, spec: PodSpec)

  datatype DeploymentSpec = DeploymentSpec(
    replicas: int,
    selector: LabelSelector,
    template: PodTemplateSpec)

  datatype Deployment = Deployment(meta: ObjectMeta, spec: DeploymentSpec)
  {
    function Key(): ObjectKey
    {
      ObjectKey(meta.namespace, meta.name)
    }
  }

  /** The errors the controller's calls can report. */
  datatype Error =
    | ListFailed
    | InvalidNamespaceSelector
    | PatchFailed(key: ObjectKey)
    | NotFound(key: ObjectKey)
}
