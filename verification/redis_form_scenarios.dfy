/** The add-instance form's unit tests, replayed on the model. Each submits
    the default fields (name `redis_test`, server `something.test:1234`)
    overridden by the test's own, against no incoming errors, with cluster
    support present unless the test says otherwise. The tests compare only
    the keys of the result; here the whole result is pinned down. */
module RedisFormScenarios {
  import opened Wrappers
  import opened Ascii
  import opened PhpStrings
  import opened RedisForm

  const DefaultServer: string := "something.test" + ":" + "1234"

  /** The submitted fields: the defaults, overridden key by key. */
  function Submission(fields: FormData): (data: FormData)
    ensures forall k | k in fields :: k in data && data[k] == fields[k]
    ensures "server" in data && "name" in data
    ensures data.Keys == fields.Keys + {"name", "server"}
  {
    map["name" := "redis_test", "server" := DefaultServer] + fields
  }

  /** A host and port with no spaces around them draws no complaint. */
  lemma HostPortAccepted(host: string, port: string)
    requires ':' !in host && ':' !in port && |host| > 0
    requires !IsTrimChar(host[0]) && (|port| == 0 || !IsTrimChar(port[|port| - 1]))
    ensures '\n' !in host + ":" + port ==> Explode(host + ":" + port, '\n') == [host + ":" + port]
    ensures LineMessage(host + ":" + port) == None
  {
    var line := host + ":" + port;
    ExplodeSingle(line, '\n');
    HostPortTrimmed(host, port);
    LineMessageSpec(line);
  }

  /** `host:port` is its own trim, has one colon and is not empty. */
  lemma HostPortTrimmed(host: string, port: string)
    requires ':' !in host && ':' !in port && |host| > 0
    requires !IsTrimChar(host[0]) && (|port| == 0 || !IsTrimChar(port[|port| - 1]))
    ensures var line := host + ":" + port;
      Trim(line) == line && multiset(line)[':'] == 1 && !IsEmpty(line)
  {
    var line := host + ":" + port;
    TrimUntouched(line);
    assert multiset(line) == multiset(host) + multiset(":") + multiset(port);
    assert |line| > 1;
  }

  /** A bare host name draws one complaint naming it, in cluster mode. */
  lemma BareHostRejected(host: string)
    requires ':' !in host && '\n' !in host && |host| > 1
    requires !IsTrimChar(host[0]) && !IsTrimChar(host[|host| - 1])
    ensures Explode(host, '\n') == [host]
    ensures ClusterMessages([host]) == [ClusterServer(host)]
  {
    ExplodeSingle(host, '\n');
    TrimUntouched(host);
    LineMessageSpec(host);
    ClusterMessagesOfLine(host);
  }

  /** Single-server mode with a one-line server field adds nothing. */
  lemma SingleModeAccepted(clusterAvailable: bool, data: FormData, render: Message -> string)
    requires !IsClusterMode(data) && '\n' !in Field(data, "server")
    ensures Validate(clusterAvailable, data, map[], render) == map[]
  {
    ValidateAccepts(clusterAvailable, data, map[], render);
  }

  /** Single-server mode with a newline in the server field adds only the
      single-server error. */
  lemma SingleModeRejected(clusterAvailable: bool, data: FormData, render: Message -> string)
    requires !IsClusterMode(data) && '\n' in Field(data, "server")
    ensures Validate(clusterAvailable, data, map[], render) == map["server" := render(SingleServerOnly)]
  {
    var r := Validate(clusterAvailable, data, map[], render);
    assert r.Keys == {"server"};
  }

  /** Cluster mode with an acceptable server list but no cluster support adds
      only the cluster-mode error. */
  lemma ClusterUnavailable(data: FormData, render: Message -> string)
    requires IsClusterMode(data) && ClusterMessages(Explode(Field(data, "server"), '\n')) == []
    ensures Validate(false, data, map[], render) == map["clustermode" := render(ClusterModeUnavailable)]
  {
    ClusterMessagesEmpty(Explode(Field(data, "server"), '\n'));
    var r := Validate(false, data, map[], render);
    assert r.Keys == {"clustermode"};
  }

  /** Cluster mode with cluster support and one offending line adds only the
      complaint about that line. */
  lemma ClusterServerRejected(data: FormData, render: Message -> string, m: Message)
    requires IsClusterMode(data) && ClusterMessages(Explode(Field(data, "server"), '\n')) == [m]
    ensures Validate(true, data, map[], render) == map["server" := render(m)]
  {
    ClusterMessagesEmpty(Explode(Field(data, "server"), '\n'));
    assert [m][1..] == [];
    assert Render(render, [m]) == [render(m)];
    var r := Validate(true, data, map[], render);
    assert r.Keys == {"server"};
  }

  /** test_it_works: the defaults pass. */
  lemma DefaultsPass(render: Message -> string)
    ensures Validate(true, Submission(map[]), map[], render) == map[]
  {
    var data := Submission(map[]);
    assert Field(data, "server") == "something.test" + ":" + "1234";
    assert "clustermode" !in data;
    assert '\n' !in "something.test" + ":" + "1234";
    SingleModeAccepted(true, data, render);
  }

  /** The default server line draws no complaint in cluster mode. */
  lemma DefaultServerAccepted()
    ensures Explode(DefaultServer, '\n') == [DefaultServer]
    ensures ClusterMessages([DefaultServer]) == []
  {
    assert ':' !in "something.test" && ':' !in "1234" && '\n' !in DefaultServer;
    AcceptedLine("something.test", "1234");
  }

  /** A one-line `host:port` server list draws no complaint. */
  lemma AcceptedLine(host: string, port: string)
    requires ':' !in host && ':' !in port && |host| > 0
    requires !IsTrimChar(host[0]) && (|port| == 0 || !IsTrimChar(port[|port| - 1]))
    requires '\n' !in host + ":" + port
    ensures Explode(host + ":" + port, '\n') == [host + ":" + port]
    ensures ClusterMessages([host + ":" + port]) == []
  {
    HostPortAccepted(host, port);
    ClusterMessagesOfLine(host + ":" + port);
  }

  /** test_it_requires_rediscluster_for_clustered_mode: cluster mode without
      cluster support is reported under `clustermode` alone. */
  lemma ClusterModeNeedsClusterSupport(render: Message -> string)
    ensures Validate(false, Submission(map["clustermode" := "1"]), map[], render)
      == map["clustermode" := render(ClusterModeUnavailable)]
  {
    var data := Submission(map["clustermode" := "1"]);
    assert Field(data, "server") == DefaultServer;
    assert data["clustermode"] == "1";
    DefaultServerAccepted();
    ClusterUnavailable(data, render);
  }

  /** test_it_does_not_require_a_port_number_for_single_mode. */
  lemma SingleModeNeedsNoPort(render: Message -> string)
    ensures Validate(true, Submission(map["server" := "something.test"]), map[], render) == map[]
  {
    var data := Submission(map["server" := "something.test"]);
    assert Field(data, "server") == "something.test";
    assert "clustermode" !in data;
    SingleModeAccepted(true, data, render);
  }

  /** The submission of the port test asks for cluster mode and its one
      server draws one complaint. */
  lemma PortlessClusterSubmission()
    ensures var data := Submission(map["clustermode" := "1", "server" := "somewhere1.test"]);
      && IsClusterMode(data)
      && ClusterMessages(Explode(Field(data, "server"), '\n')) == [ClusterServer("somewhere1.test")]
  {
    PortlessClusterFields();
    PortlessServerRejected();
  }

  lemma PortlessClusterFields()
    ensures var data := Submission(map["clustermode" := "1", "server" := "somewhere1.test"]);
      IsClusterMode(data) && Field(data, "server") == "somewhere1.test"
  {
    var data := Submission(map["clustermode" := "1", "server" := "somewhere1.test"]);
    assert data["clustermode"] == "1";
  }

  lemma PortlessServerRejected()
    ensures ClusterMessages(Explode("somewhere1.test", '\n')) == [ClusterServer("somewhere1.test")]
  {
    assert ':' !in "somewhere1.test" && '\n' !in "somewhere1.test";
    BareHostRejected("somewhere1.test");
  }

  /** test_it_requires_a_port_number_for_cluster_servers: the one server is
      named in the only error. */
  lemma ClusterModeNeedsPorts(render: Message -> string)
    ensures Validate(true, Submission(map["clustermode" := "1", "server" := "somewhere1.test"]), map[], render)
      == map["server" := render(ClusterServer("somewhere1.test"))]
  {
    PortlessClusterSubmission();
    ClusterServerRejected(Submission(map["clustermode" := "1", "server" := "somewhere1.test"]), render,
                          ClusterServer("somewhere1.test"));
  }

  /** test_it_can_have_only_one_server_in_single_mode: two lines are refused
      when cluster mode is explicitly off. */
  lemma SingleModeAllowsOneServer(render: Message -> string)
    ensures Validate(true, Submission(map["clustermode" := "0", "server" := "redis1.test:123" + "\n" + "redis2.test:456"]),
                     map[], render)
      == map["server" := render(SingleServerOnly)]
  {
    var data := Submission(map["clustermode" := "0", "server" := "redis1.test:123" + "\n" + "redis2.test:456"]);
    assert Field(data, "server") == "redis1.test:123" + "\n" + "redis2.test:456";
    assert data["clustermode"] == "0";
    assert ("redis1.test:123" + "\n" + "redis2.test:456")[15] == '\n';
    SingleModeRejected(true, data, render);
  }

  /** A trailing newline is a second, empty line: single-server mode refuses
      it. */
  lemma SingleModeRefusesTrailingNewline(render: Message -> string, host: string)
    ensures Validate(true, Submission(map["server" := host + "\n"]), map[], render)
      == map["server" := render(SingleServerOnly)]
  {
    var data := Submission(map["server" := host + "\n"]);
    assert Field(data, "server") == host + "\n";
    assert "clustermode" !in data;
    assert (host + "\n")[|host|] == '\n';
    SingleModeRejected(true, data, render);
  }

  /** Cluster mode skips a line of blanks. */
  lemma BlankLineSkipped()
    ensures LineMessage(" \t") == None
  {
    assert " \t"[1..] == "\t" && "\t"[1..] == "";
    assert TrimLeft(" \t") == TrimLeft("\t") == TrimLeft("") == "";
  }

  /** Cluster mode skips a line that trims to "0", which PHP deems empty. */
  lemma ZeroLineSkipped()
    ensures LineMessage(" 0 ") == None
  {
    assert " 0 "[1..] == "0 " && "0 "[..1] == "0";
    assert TrimLeft(" 0 ") == TrimLeft("0 ") == "0 ";
    assert TrimRight("0 ") == TrimRight("0") == "0";
  }

  /** Cluster mode accepts an empty port. */
  lemma EmptyPortAccepted()
    ensures LineMessage("redis1.test:") == None
  {
    HostPortAccepted("redis1.test", "");
    assert "redis1.test" + ":" + "" == "redis1.test:";
  }

  /** Cluster mode names a port-less server after trimming it. */
  lemma TrimmedServerNamed()
    ensures LineMessage(" redis1.test ") == Some(ClusterServer("redis1.test"))
  {
    TrimmedServer();
    assert ':' !in "redis1.test" && |"redis1.test"| > 1;
    PortlessLine(" redis1.test ", "redis1.test");
  }

  /** A line that trims to a non-empty server without a colon is named. */
  lemma PortlessLine(line: string, server: string)
    requires Trim(line) == server && ':' !in server && |server| > 1
    ensures LineMessage(line) == Some(ClusterServer(server))
  {
    ExplodeSingle(server, ':');
  }

  lemma TrimmedServer()
    ensures Trim(" redis1.test ") == "redis1.test"
  {
    assert " redis1.test "[1..] == "redis1.test ";
    assert "redis1.test "[..11] == "redis1.test";
    assert TrimLeft(" redis1.test ") == TrimLeft("redis1.test ") == "redis1.test ";
    assert TrimRight("redis1.test ") == TrimRight("redis1.test") == "redis1.test";
  }
}
