/**
 * The network step of a migration (`funcSyncNetwork`).  The script remembers the
 * last network it created or accepted in one global slot; a container whose
 * network is the remembered one needs no remote query and no prompt.  Remote
 * replies are an oracle from command line to reply; the operator's two answers
 * are parameters.
 */
module Network {
  import opened Text
  import opened Commands
  import opened Inspect

  /** The remote query for an existing network. */
  function InspectNetwork(name: string): string {
    "podman network inspect " + name + " --format {{.Name}}"
  }

  /** The remote command creating a network with default settings. */
  function CreateNetwork(name: string): string {
    "podman network create " + name
  }

  datatype NetworkOutcome =
    | NoNetwork        // the command has no `--network ` option
    | AlreadyHandled   // the network is the remembered one
    | ReusedExisting   // it exists remotely and the operator accepted it
    | CreatedNetwork   // the operator let the script create it, and the create succeeded
    | LeftToOperator   // the operator created it by hand
    | NetworkStop      // reuse declined or the create failed: the run stops
    | NetworkCrash     // there is no create command at all

  /** The outcome, the remembered network afterwards, and the remote commands issued, in order. */
  datatype NetworkStep = NetworkStep(outcome: NetworkOutcome, memo: Option<string>, issued: seq<string>)

  /** One call of the network step. */
  function NetworkDecision(memo: Option<string>, cmd: Option<string>, remote: string -> Reply,
                           reuse: bool, create: bool): NetworkStep
  {
    match cmd
    case None => NetworkStep(NetworkCrash, memo, [])
    case Some(c) =>
      if !Contains(c, "--network ") then NetworkStep(NoNetwork, memo, [])
      else
        var name := NetworkName(c);
        if memo == Some(name) then NetworkStep(AlreadyHandled, memo, [])
        else if remote(InspectNetwork(name)).text == name then
          if reuse then NetworkStep(ReusedExisting, Some(name), [InspectNetwork(name)])
          else NetworkStep(NetworkStop, memo, [InspectNetwork(name)])
        else if create then
          var issued := [InspectNetwork(name), CreateNetwork(name)];
          if remote(CreateNetwork(name)).text == name then NetworkStep(CreatedNetwork, Some(name), issued)
          else NetworkStep(NetworkStop, Some(name), issued)
        else NetworkStep(LeftToOperator, Some(name), [InspectNetwork(name)])
  }

  /** The global slot of the script, and the network step that updates it. */
  class NetworkMemo {
    var memo: Option<string>

    /** The slot starts empty: no network has been handled yet. */
    constructor ()
      ensures memo == None
    {
      memo := None;
    }

    /** One network step, as `NetworkDecision` describes it. */
    method Sync(cmd: Option<string>, remote: string -> Reply, reuse: bool, create: bool)
      returns (outcome: NetworkOutcome, issued: seq<string>)
      modifies this
      ensures NetworkStep(outcome, memo, issued) == NetworkDecision(old(memo), cmd, remote, reuse, create)
    {
      issued := [];
      if cmd.None? {
        return NetworkCrash, issued;
      }
      var c := cmd.value;
      if !Contains(c, "--network ") {
        return NoNetwork, issued;
      }
      var name := NetworkName(c);
      if memo == Some(name) {
        return AlreadyHandled, issued;
      }
      issued := issued + [InspectNetwork(name)];
      if remote(InspectNetwork(name)).text == name {
        if !reuse {
          return NetworkStop, issued;
        }
        memo := Some(name);
        return ReusedExisting, issued;
      }
      memo := Some(name);
      if !create {
        return LeftToOperator, issued;
      }
      issued := issued + [CreateNetwork(name)];
      if remote(CreateNetwork(name)).text == name {
        outcome := CreatedNetwork;
      } else {
        outcome := NetworkStop;
      }
    }
  }

  /** The network of the command equals the remembered one: no remote command, no prompt, no change. */
  lemma RememberedNetworkIsQuiet(memo: Option<string>, c: string, remote: string -> Reply,
                                 reuse: bool, create: bool, remote2: string -> Reply, reuse2: bool, create2: bool)
    requires Contains(c, "--network ") && memo == Some(NetworkName(c))
    ensures NetworkDecision(memo, Some(c), remote, reuse, create) == NetworkStep(AlreadyHandled, memo, [])
    ensures NetworkDecision(memo, Some(c), remote, reuse, create)
            == NetworkDecision(memo, Some(c), remote2, reuse2, create2)
  {
  }

  /** Every path that does not stop the run and uses a network leaves that network remembered. */
  lemma ContinuingRemembers(memo: Option<string>, c: string, remote: string -> Reply, reuse: bool, create: bool)
    requires Contains(c, "--network ")
    ensures var s := NetworkDecision(memo, Some(c), remote, reuse, create);
            s.outcome != NetworkStop ==> s.memo == Some(NetworkName(c))
  {
  }

  /**
   * The run stops exactly when the network exists remotely and reuse is declined, or
   * when the operator asked for a create that did not answer with the network's name.
   */
  lemma NetworkStopsWhen(memo: Option<string>, c: string, remote: string -> Reply, reuse: bool, create: bool)
    requires Contains(c, "--network ")
    ensures var name := NetworkName(c);
            NetworkDecision(memo, Some(c), remote, reuse, create).outcome == NetworkStop
            <==> memo != Some(name)
                 && ((remote(InspectNetwork(name)).text == name && !reuse)
                     || (remote(InspectNetwork(name)).text != name && create
                         && remote(CreateNetwork(name)).text != name))
  {
  }

  /** A remote command is issued only for the command's network, the query always first. */
  lemma NetworkIssuesQueryFirst(memo: Option<string>, c: string, remote: string -> Reply, reuse: bool, create: bool)
    ensures var s := NetworkDecision(memo, Some(c), remote, reuse, create);
            s.issued != [] ==>
              Contains(c, "--network ") && memo != Some(NetworkName(c))
              && s.issued[0] == InspectNetwork(NetworkName(c))
              && (|s.issued| == 2 ==> s.issued[1] == CreateNetwork(NetworkName(c)))
              && |s.issued| <= 2
  {
  }

  /**
   * Two containers of one migration on the same network: once the first has gone
   * through without stopping, the second is handled without any remote command,
   * whatever the network is called in the first command text.
   */
  lemma SecondContainerQuiet(memo: Option<string>, c1: string, c2: string,
                             remote: string -> Reply, reuse: bool, create: bool,
                             remote2: string -> Reply, reuse2: bool, create2: bool)
    requires Contains(c1, "--network ") && Contains(c2, "--network ")
    requires NetworkName(c1) == NetworkName(c2)
    requires NetworkDecision(memo, Some(c1), remote, reuse, create).outcome != NetworkStop
    ensures var first := NetworkDecision(memo, Some(c1), remote, reuse, create);
            NetworkDecision(first.memo, Some(c2), remote2, reuse2, create2)
            == NetworkStep(AlreadyHandled, first.memo, [])
  {
    ContinuingRemembers(memo, c1, remote, reuse, create);
  }

  /**
   * The remembered slot holds one network only: containers alternating between two
   * networks query the remote every time.
   */
  lemma AlternatingNetworksQueryAgain(memo: Option<string>, c1: string, c2: string,
                                      remote: string -> Reply, reuse: bool, create: bool,
                                      remote2: string -> Reply, reuse2: bool, create2: bool)
    requires Contains(c1, "--network ") && Contains(c2, "--network ")
    requires NetworkName(c1) != NetworkName(c2)
    requires NetworkDecision(memo, Some(c1), remote, reuse, create).outcome != NetworkStop
    ensures var first := NetworkDecision(memo, Some(c1), remote, reuse, create);
            NetworkDecision(first.memo, Some(c2), remote2, reuse2, create2).issued != []
  {
    ContinuingRemembers(memo, c1, remote, reuse, create);
  }

  /** For a command naming its network once, the decision is about exactly that network. */
  lemma NetworkOfCommand(memo: Option<string>, pre: string, net: string, post: string,
                         remote: string -> Reply, reuse: bool, create: bool)
    requires '\n' !in pre + "--network " + net + post
    requires ' ' !in net && (post == [] || post[0] == ' ')
    requires !Contains(net + post, "network ")
    ensures var s := NetworkDecision(memo, Some(pre + "--network " + net + post), remote, reuse, create);
            s.outcome != NetworkStop ==> s.memo == Some(net)
  {
    var c := pre + "--network " + net + post;
    assert c == (pre + "--") + "network " + net + post;
    assert c[|pre|..|pre| + 10] == "--network ";
    ContainsAt(c, "--network ", |pre|);
    NetworkNameOf(pre + "--", net, post);
    ContinuingRemembers(memo, c, remote, reuse, create);
  }
}
