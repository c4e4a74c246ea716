/** From an accepted descriptor to a finished client: the imperative server meets the theorems. */
module Server {
  import opened Bytes
  import opened Trace
  import opened ConnectionSpec
  import opened Connection
  import opened Frames
  import opened Safety
  import opened Closing

  /** What is true of a served connection: the safety invariant, one close, and the reference
      semantics of the bytes alone if and only if the input does not overrun. */
  ghost predicate ServedWell(env: Env, tls: bool, gateway: uint16, inbox: seq<Read>, r: Core) {
    && Inv(env, r) && !r.open
    && |Keep(IsClose, r.trace)| == 1
    && (r == Reference(env, Accepted(tls, gateway), Arrived(inbox), Ending(inbox)) <==> !Overruns(tls, inbox))
  }

  lemma RunServesWell(env: Env, tls: bool, gateway: uint16, inbox: seq<Read>)
    ensures ServedWell(env, tls, gateway, inbox, Run(env, Accepted(tls, gateway), inbox).0)
  {
    AcceptedInv(env, tls, gateway);
    RunInv(env, Accepted(tls, gateway), inbox);
    RunIsReference(env, Accepted(tls, gateway), inbox);
  }

  /** One round of the example's listener, with the handler run to its end. */
  method ServeClient(sock: int, gateway: uint16, tls: Tls?, env: Env, inbox: seq<Read>, app: Application)
    returns (connection: DoIPConnection)
    requires sock != 0
    requires tls != null ==> !tls.freed && !tls.fatalRead
    modifies tls, app
    ensures ServedWell(env, tls != null, gateway, inbox, connection.State())
    ensures tls != null ==> tls.freed
    ensures app.connectionsCounter == old(app.connectionsCounter)
  {
    connection := new DoIPConnection(sock, gateway, tls, env, inbox);
    app.connectionsCounter := app.connectionsCounter + 1;
    RunServesWell(env, tls != null, gateway, inbox);
    HandleClient(connection, app);
  }
}
