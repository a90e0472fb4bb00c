// The signed verdict that travels through the pipeline.
module LogEntries {

  datatype Entry = Entry(
    uuid: string, logIndex: nat, artifactHash: string, category: string, verdict: string,
    signerKeyID: string, signature: string, serverTimestamp: string, serverSignature: string)

  const CATEGORIES: seq<string> := ["authorship", "method", "authenticity"]
  const REVOKE := "revoke"
}
