/** The field names serde gives the signed structs, in declaration order. */
module FieldNames {
  const CALENDAR_IDS: string := "calendar_ids"
  const EMAIL_DOMAIN_ALLOWLIST: string := "email_domain_allowlist"

  const MAX_SPEND_KEYS: seq<string> := ["amount", "currency"]
  const PUBLIC_KEY_KEYS: seq<string> := ["kid", "kty", "crv", "x"]
  const ENDPOINT_KEYS: seq<string> := ["protocol", "url"]
  const ATTESTATION_KEYS: seq<string> := ["type", "issuer", "evidence_ref"]

  const TOKEN_KEYS: seq<string> := [
    "spec_version", "kind", "token_id", "issuer", "agent_id", "delegator_id", "owner_id", "audience",
    "allowed_actions", "resource_constraints", "max_spend", "max_delegation_depth", "issued_at",
    "expires_at", "intent", "nonce", "key_id", "signature_alg", "signature"]

  const IDENTITY_KEYS: seq<string> := [
    "spec_version", "kind", "agent_id", "display_name", "owner_id", "issuer", "identity_type", "subject",
    "public_keys", "supported_protocols", "supported_auth_methods", "capabilities", "endpoints",
    "attestation", "created_at", "expires_at", "signature"]

  const EVENT_KEYS: seq<string> := [
    "occurred_at", "allowed", "stage", "reason", "request_id", "agent_id", "delegator_id", "audience", "action", "token_id"]

  predicate Distinct(keys: seq<string>) {
    forall i, j | 0 <= i < j < |keys| :: keys[i] != keys[j]
  }

  lemma TokenKeysDistinct()
    ensures Distinct(TOKEN_KEYS)
  {
    forall i, j | 0 <= i < j < |TOKEN_KEYS| ensures TOKEN_KEYS[i] != TOKEN_KEYS[j] {
    }
  }

  lemma IdentityKeysDistinct()
    ensures Distinct(IDENTITY_KEYS)
  {
    forall i, j | 0 <= i < j < |IDENTITY_KEYS| ensures IDENTITY_KEYS[i] != IDENTITY_KEYS[j] {
    }
  }
}
