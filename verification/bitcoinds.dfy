/** The registry of bitcoind RPC endpoints a block maker submits found
    blocks to (`bitcoindRpcUri_`, a vector of address/credential pairs). */
module Bitcoinds {

  /** One configured daemon: its RPC address and its "user:password". */
  datatype Endpoint = Endpoint(rpcAddress: string, rpcUserPwd: string)

  /** A node entry of a block-maker definition, as read from configuration. */
  datatype NodeDefinition = NodeDefinition(rpcAddr: string, rpcUserPwd: string)

  /** `addBitcoind`: registers one more daemon after those already known. */
  function AddBitcoind(uris: seq<Endpoint>, rpcAddress: string, rpcUserpass: string): (r: seq<Endpoint>)
    ensures |r| == |uris| + 1
    ensures r[..|uris|] == uris
    ensures r[|uris|] == Endpoint(rpcAddress, rpcUserpass)
  {
    uris + [Endpoint(rpcAddress, rpcUserpass)]
  }

  /** Registers the nodes of a definition one by one, in order. */
  function AddNodes(uris: seq<Endpoint>, nodes: seq<NodeDefinition>): (r: seq<Endpoint>)
    decreases |nodes|
  {
    if nodes == [] then uris
    else AddNodes(AddBitcoind(uris, nodes[0].rpcAddr, nodes[0].rpcUserPwd), nodes[1..])
  }

  /** Registration is append-only: the endpoints known before are kept as a
      prefix, and after them comes exactly one endpoint per node, in the
      definition's order. */
  lemma {:induction false} AddNodesAppends(uris: seq<Endpoint>, nodes: seq<NodeDefinition>)
    ensures |AddNodes(uris, nodes)| == |uris| + |nodes|
    ensures AddNodes(uris, nodes)[..|uris|] == uris
    ensures forall i :: 0 <= i < |nodes| ==>
      AddNodes(uris, nodes)[|uris| + i] == Endpoint(nodes[i].rpcAddr, nodes[i].rpcUserPwd)
    decreases |nodes|
  {
    if nodes != [] {
      var u1 := AddBitcoind(uris, nodes[0].rpcAddr, nodes[0].rpcUserPwd);
      var r := AddNodes(u1, nodes[1..]);
      AddNodesAppends(u1, nodes[1..]);
      assert r[..|uris|] == r[..|u1|][..|uris|];
      forall i | 0 <= i < |nodes|
        ensures r[|uris| + i] == Endpoint(nodes[i].rpcAddr, nodes[i].rpcUserPwd)
      {
        if i == 0 {
          assert r[|uris|] == r[..|u1|][|uris|];
        } else {
          assert nodes[i] == nodes[1..][i - 1];
        }
      }
    }
  }
}
