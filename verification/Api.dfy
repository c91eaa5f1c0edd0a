/** The control-plane entities of internal/api/types.go used by more than one component. */
module Api {

  datatype PolicyRule = PolicyRule(src: string, dst: string, port: int, protocol: string, action: string)

  datatype Policy = Policy(id: string, rules: seq<PolicyRule>)

  datatype Peer = Peer(
    id: string,
    publicKey: string,
    meshIP: string,
    endpoint: string,
    allowedIPs: seq<string>,
    psk: string)
}
