/** The seven record types and their common envelope (ahp/core/records.py, ahp/core/types.py). */
module Records {
  import opened Bytes

  // RecordType
  const ACTION := 1
  const GAP := 2
  const CHECKPOINT := 3
  const BOOT := 4
  const RECOVERY := 5
  const KEY := 6
  const WITNESS := 7

  // AuthorizationType and AuthorizerType
  const AUTH_NONE := 1
  const AUTH_MULTI_PARTY := 5
  const AUTHORIZER_AGENT := 2

  // GapReason
  const CRASH := 1
  const INTERCEPTOR_FAILURE := 5

  // RecoveryMethod
  const CHAIN_SCAN := 2

  const SCHEMA_VERSION := 2

  datatype AuthorizationEntry = AuthorizationEntry(
    authorizerType: int, authorizerId: Text, authorizerAgentId: bytes, authorizerSeq: int,
    decision: int, condition: Text, timestampMs: int)

  datatype Authorization = Authorization(kind: int, entries: seq<AuthorizationEntry>)

  datatype ActionPayload = ActionPayload(
    parentActionId: bytes, toolName: Text, parametersHash: bytes, resultHash: bytes,
    resultStatus: int, responseTimeMs: int, protocol: int, actionType: int,
    targetEntity: Text, evidenceUri: Text, redacted: bool, modelId: Text,
    inputTokenCount: int, outputTokenCount: int, cacheReadTokens: int, cacheCreationTokens: int,
    reasoningTokens: int, costNanoUsd: int, provider: Text, authorization: Authorization)

  datatype GapPayload = GapPayload(
    firstLost: int, lastLost: int, count: int, reason: int, detail: Text)

  datatype CheckpointPayload = CheckpointPayload(
    recordCount: int, gapCount: int, chainHash: bytes, merkleRoot: bytes, signature: bytes,
    signingKeyId: bytes, evidenceAvailable: int, evidenceExported: int, evidenceExpired: int,
    evidenceMissing: int)

  datatype BootPayload = BootPayload(
    sdkName: Text, sdkVersion: Text, interceptors: seq<Text>, agentFramework: Text, agentName: Text,
    runtime: Text, chainLevel: int, fsyncMode: int, clockSource: Text, inferenceRecording: bool,
    inferenceEvidence: bool, evidenceRecording: bool, filterConfigHash: bytes, matchedAgentRule: Text,
    configSource: Text, authorizationRecording: bool)

  datatype RecoveryPayload = RecoveryPayload(
    recordsVerified: int, recordsTruncated: int, lastValidSeq: int, recoveryMethod: int, detail: Text)

  datatype KeyPayload = KeyPayload(
    publicKey: bytes, keyId: bytes, expiresAt: int, supersedesKeyId: bytes)

  datatype WitnessPayload = WitnessPayload(
    witnessId: Text, checkpointSeq: int, checkpointHash: bytes, witnessTimestamp: int,
    receiptSignature: bytes, witnessPublicKey: bytes)

  datatype Payload =
    | Action(action: ActionPayload)
    | Gap(gap: GapPayload)
    | Checkpoint(checkpoint: CheckpointPayload)
    | Boot(boot: BootPayload)
    | Recovery(recovery: RecoveryPayload)
    | Key(key: KeyPayload)
    | Witness(receipt: WitnessPayload)

  /** PAYLOAD_TYPE_MAP */
  function TypeOf(p: Payload): (t: int) {
    match p
    case Action(_) => ACTION
    case Gap(_) => GAP
    case Checkpoint(_) => CHECKPOINT
    case Boot(_) => BOOT
    case Recovery(_) => RECOVERY
    case Key(_) => KEY
    case Witness(_) => WITNESS
  }

  datatype Record = Record(
    recordId: bytes, agentId: bytes, sessionId: bytes, timestampMs: int, sequence: int,
    prevHash: bytes, schemaVersion: int, recordType: int, payload: Payload)
}
