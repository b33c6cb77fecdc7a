/**
 * The client configuration (`Client`, `Client::open`, `Client::set_retries`
 * and `impl Clone for Client` in src/lib.rs).
 *
 * Reading an address into connection information is done by the `redis`
 * crate; its outcome per node is an input.
 */
module ClientConfig {
  import opened Wrappers
  import opened Requests

  datatype ConnectionAddr = Tcp(host: string, port: int) | Unix(path: string)

  datatype ConnectionInfo = ConnectionInfo(addr: ConnectionAddr, db: int, passwd: Option<string>)

  /** The `InvalidClientConfig` error for a Unix socket address. */
  const UnixSocketRejected := RedisError(None, "This library cannot use unix socket because Redis's cluster command returns only cluster's IP and port.")

  /** A node `open` keeps: it was read, and it is a TCP address. */
  predicate Accepted(info: Result<ConnectionInfo, RedisError>) {
    info.Success? && info.value.addr.Tcp?
  }

  function Rejection(info: Result<ConnectionInfo, RedisError>): RedisError {
    if info.Failure? then info.error else UnixSocketRejected
  }

  /**
   * The loop of `open`: every node is kept, in order, unless one cannot be
   * read or is a Unix socket, in which case the first such node's error is
   * returned.
   */
  method CollectNodes(infos: seq<Result<ConnectionInfo, RedisError>>) returns (r: Result<seq<ConnectionInfo>, RedisError>)
    ensures r.Success? <==> forall i :: 0 <= i < |infos| ==> Accepted(infos[i])
    ensures r.Success? ==> |r.value| == |infos| && forall i :: 0 <= i < |infos| ==> r.value[i] == infos[i].value
    ensures r.Failure? ==> exists i :: (0 <= i < |infos| && !Accepted(infos[i]) && r.error == Rejection(infos[i])
                                        && forall j :: 0 <= j < i ==> Accepted(infos[j]))
  {
    var nodes: seq<ConnectionInfo> := [];
    for i := 0 to |infos|
      invariant |nodes| == i
      invariant forall j :: 0 <= j < i ==> Accepted(infos[j]) && nodes[j] == infos[j].value
    {
      var info := infos[i];
      if info.Failure? {
        return Failure(info.error);
      }
      if info.value.addr.Unix? {
        return Failure(UnixSocketRejected);
      }
      nodes := nodes + [info.value];
    }
    r := Success(nodes);
  }

  class Client {
    var initialNodes: seq<ConnectionInfo>
    var retries: Option<u32>

    /** Only TCP addresses are ever kept. */
    ghost predicate Valid()
      reads this
    {
      forall i :: 0 <= i < |initialNodes| ==> initialNodes[i].addr.Tcp?
    }

    constructor (nodes: seq<ConnectionInfo>, retries: Option<u32>)
      ensures initialNodes == nodes && this.retries == retries
    {
      initialNodes := nodes;
      this.retries := retries;
    }

    /** `Client::open`: the accepted nodes, retrying 16 times by default. */
    static method Open(infos: seq<Result<ConnectionInfo, RedisError>>) returns (r: Result<Client, RedisError>)
      ensures r.Success? <==> forall i :: 0 <= i < |infos| ==> Accepted(infos[i])
      ensures r.Success? ==> fresh(r.value) && r.value.Valid() && r.value.retries == Some(DefaultRetries)
      ensures r.Success? ==> |r.value.initialNodes| == |infos|
      ensures r.Success? ==> forall i :: 0 <= i < |infos| ==> r.value.initialNodes[i] == infos[i].value
      ensures r.Failure? ==> exists i :: (0 <= i < |infos| && !Accepted(infos[i]) && r.error == Rejection(infos[i])
                                          && forall j :: 0 <= j < i ==> Accepted(infos[j]))
    {
      var nodes := CollectNodes(infos);
      if nodes.Failure? {
        return Failure(nodes.error);
      }
      var c := new Client(nodes.value, Some(DefaultRetries));
      r := Success(c);
    }

    /** `set_retries`; `None` retries without limit. */
    method SetRetries(retries: Option<u32>)
      modifies this
      ensures this.retries == retries && initialNodes == old(initialNodes)
    {
      this.retries := retries;
    }

    /** `clone` as written: the nodes are opened again, so the retry setting goes back to 16. */
    method CloneAsWritten() returns (c: Client)
      requires Valid()
      ensures fresh(c) && c.Valid() && c.initialNodes == initialNodes && c.retries == Some(DefaultRetries)
    {
      var nodes := initialNodes;
      var infos := seq(|nodes|, i requires 0 <= i < |nodes| => Success(nodes[i]));
      assert forall i :: 0 <= i < |infos| ==> Accepted(infos[i]);
      var result := Open(infos);
      c := result.value;
      assert c.initialNodes == nodes;
    }

    /** A client whose retry setting was changed loses it when cloned. */
    method CloneLosesRetriesAsWritten(limit: u32) returns (original: Client, copy: Client)
      requires limit != DefaultRetries
      ensures original.retries == Some(limit) && copy.retries == Some(DefaultRetries)
      ensures copy.initialNodes == original.initialNodes
    {
      var result := Open([Success(ConnectionInfo(Tcp("127.0.0.1", 7000), 0, None))]);
      original := result.value;
      original.SetRetries(Some(limit));
      copy := original.CloneAsWritten();
    }

    /** `clone`, corrected: the same nodes and the same retry setting. */
    method Clone() returns (c: Client)
      requires Valid()
      ensures fresh(c) && c.Valid() && c.initialNodes == initialNodes && c.retries == retries
    {
      c := new Client(initialNodes, retries);
    }
  }
}
