/** The status of a LoadBalancerConfig as values: one entry for each load balancer host. */
module Status {
  import opened Prelude
  import opened Files

  const CONFIGURING := "Configuring"
  const READY := "Ready"
  const FAILED := "Failed"

  datatype Node = Node(
    publicIP: string,
    privateIP: string,
    vrrpIP: string,
    hashes: map<ConfigFile, string>,
    status: string)

  const EMPTY_NODE := Node("", "", "", map[], "")

  /** What is found on the host: the address of the public interface, and that of the
      interface of the cluster network, if there is one. */
  datatype Lookups = Lookups(publicIP: Option<string>, privateIP: Option<string>)

  /** The addresses that InitializeNodeStatus enters. */
  datatype Facts = Facts(publicIP: string, privateIP: string, vrrpIP: string)

  /** The host's entry after InitializeNodeStatus. */
  function Configuring(n: Node, facts: Facts): Node {
    Node(facts.publicIP, facts.privateIP, facts.vrrpIP, n.hashes, CONFIGURING)
  }

  /** The status that a pass ends with. */
  function Verdict(failed: bool): string {
    if failed then FAILED else READY
  }
}
