/**
  The client registry of `/auth`: an authorised caller is recorded as the
  pair (username, remote address) unless that pair is already recorded.
 */
module Clients {
  import opened Wrappers
  import opened Requests

  /** A registered client; the `since` timestamp is not modelled. */
  datatype Client = Client(name: string, address: string)

  /** `register_client`: the status and the registry afterwards. */
  function RegisterClient(authKey: string, clients: seq<Client>, cred: Option<Credentials>, address: string): (Status, seq<Client>) {
    if !Authorized(authKey, cred) then (Unauthorized, clients)
    else
      var c := Client(cred.value.username, address);
      if c in clients then (Ok, clients) else (Ok, clients + [c])
  }

  predicate NoDuplicatePairs(clients: seq<Client>) {
    forall i, j :: 0 <= i < j < |clients| ==> clients[i] != clients[j]
  }

  /** Registering keeps at most one entry per (name, address) pair, leaves
      every earlier entry in place, and afterwards the caller's pair is
      recorded: a pair already present changes nothing, a new pair is
      appended and nothing else is. An unauthorised call changes nothing. */
  lemma RegisterClientSpec(authKey: string, clients: seq<Client>, cred: Option<Credentials>, address: string)
    requires NoDuplicatePairs(clients)
    ensures var (status, after) := RegisterClient(authKey, clients, cred, address);
      && NoDuplicatePairs(after)
      && after[..|clients|] == clients
      && |after| <= |clients| + 1
      && (status == Unauthorized <==> !Authorized(authKey, cred))
      && (status == Unauthorized ==> after == clients)
      && (status == Ok ==> Client(cred.value.username, address) in after)
      && (status == Ok ==> after == clients || after == clients + [Client(cred.value.username, address)])
      && (status == Ok && Client(cred.value.username, address) in clients ==> after == clients)
      && (status == Ok && Client(cred.value.username, address) !in clients ==>
            after == clients + [Client(cred.value.username, address)])
  {
    var (status, after) := RegisterClient(authKey, clients, cred, address);
    assert after[..|clients|] == clients;
  }

  /** Registering the same caller from the same address twice is the same
      as registering once. */
  lemma RegisterClientIdempotent(authKey: string, clients: seq<Client>, cred: Option<Credentials>, address: string)
    ensures var once := RegisterClient(authKey, clients, cred, address).1;
      RegisterClient(authKey, once, cred, address) == RegisterClient(authKey, clients, cred, address)
  {
  }
}
