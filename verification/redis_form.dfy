/** Validation of the server list on the Redis cache store's add-instance
    form: a pure map from (cluster availability, submitted form data,
    incoming errors) to the errors after validation. */
module RedisForm {
  import opened Wrappers
  import opened PhpStrings

  /** The localised messages the validator can add, before they are rendered
      to text. */
  datatype Message =
    | ClusterModeUnavailable
    | SingleServerOnly
    | ClusterServer(server: string)

  /** Submitted form fields and validation errors, both keyed by field name. */
  type FormData = map<string, string>
  type Errors = map<string, string>

  const ServerSeparator: string := "<br />"

  /** A submitted field; an absent one reads as the empty string, since
      splitting PHP's null yields one empty piece. */
  function Field(data: FormData, key: string): (r: string)
    ensures key !in data ==> r == ""
    ensures key in data ==> r == data[key]
  {
    if key in data then data[key] else ""
  }

  /** Cluster mode is requested when the checkbox value is non-empty in PHP's
      sense: absent, "" and "0" all mean single-server mode. */
  predicate IsClusterMode(data: FormData): (b: bool)
    ensures b <==> "clustermode" in data && data["clustermode"] != "" && data["clustermode"] != "0"
  {
    "clustermode" in data && !IsEmpty(data["clustermode"])
  }

  /** The complaint about one line of a cluster server list: the trimmed
      line, unless it is blank or splits around colons into exactly two
      parts. */
  function LineMessage(line: string): (r: Option<Message>)
    ensures r.Some? ==> r.value.ClusterServer?
  {
    var server := Trim(line);
    if IsEmpty(server) then None
    else if |Explode(server, ':')| != 2 then Some(ClusterServer(server))
    else None
  }

  /** A line is complained about exactly when, after trimming, it is neither
      blank nor of the form address:port with exactly one colon; the message
      names the trimmed line. */
  lemma LineMessageSpec(line: string)
    ensures LineMessage(line).Some? <==> !IsEmpty(Trim(line)) && multiset(Trim(line))[':'] != 1
    ensures LineMessage(line).Some? ==> LineMessage(line).value == ClusterServer(Trim(line))
  {
    ExplodeSpec(Trim(line), ':');
  }

  /** The complaints about a cluster server list, one per offending line, in
      line order. */
  function ClusterMessages(servers: seq<string>): (r: seq<Message>)
    ensures |r| <= |servers|
  {
    if servers == [] then []
    else
      var head := match LineMessage(servers[0]) case None => [] case Some(m) => [m];
      head + ClusterMessages(servers[1..])
  }

  /** Every complaint names a non-blank server whose colon count is not one. */
  lemma {:induction false} ClusterMessagesSpec(servers: seq<string>)
    ensures forall m | m in ClusterMessages(servers) ::
      m.ClusterServer? && !IsEmpty(m.server) && multiset(m.server)[':'] != 1
  {
    if servers != [] {
      LineMessageSpec(servers[0]);
      ClusterMessagesSpec(servers[1..]);
    }
  }

  /** A list draws no complaint exactly when none of its lines does. */
  lemma {:induction false} ClusterMessagesEmpty(servers: seq<string>)
    ensures ClusterMessages(servers) == [] <==> forall line | line in servers :: LineMessage(line).None?
  {
    if servers != [] {
      ClusterMessagesEmpty(servers[1..]);
      assert forall line | line in servers :: line == servers[0] || line in servers[1..];
    }
  }

  /** The complaints about a list are the complaints about its parts, in
      order: together with `LineMessage` this pins down exactly which lines
      are named and in which order. */
  lemma {:induction false} ClusterMessagesConcat(a: seq<string>, b: seq<string>)
    ensures ClusterMessages(a + b) == ClusterMessages(a) + ClusterMessages(b)
  {
    if a == [] {
      assert a + b == b;
    } else {
      assert (a + b)[1..] == a[1..] + b;
      ClusterMessagesConcat(a[1..], b);
    }
  }

  /** The complaints about a one-line list. */
  lemma ClusterMessagesOfLine(line: string)
    ensures ClusterMessages([line]) == match LineMessage(line) case None => [] case Some(m) => [m]
  {
    assert [line][1..] == [];
  }

  /** Messages rendered to text, one string per message, in order. */
  function Render(render: Message -> string, ms: seq<Message>): (r: seq<string>)
    ensures |r| == |ms|
  {
    if ms == [] then [] else [render(ms[0])] + Render(render, ms[1..])
  }

  /** Rendering a list is rendering its parts. */
  lemma {:induction false} RenderConcat(render: Message -> string, a: seq<Message>, b: seq<Message>)
    ensures Render(render, a + b) == Render(render, a) + Render(render, b)
  {
    if a == [] {
      assert a + b == b;
    } else {
      assert (a + b)[1..] == a[1..] + b;
      RenderConcat(render, a[1..], b);
    }
  }

  /** One more line adds its own complaint, if any, at the end. */
  lemma RenderedMessagesSnoc(render: Message -> string, servers: seq<string>, line: string)
    ensures Render(render, ClusterMessages(servers + [line])) ==
      Render(render, ClusterMessages(servers)) +
      match LineMessage(line) case None => [] case Some(m) => [render(m)]
  {
    ClusterMessagesConcat(servers, [line]);
    ClusterMessagesOfLine(line);
    RenderConcat(render, ClusterMessages(servers), ClusterMessages([line]));
    match LineMessage(line)
    case None =>
    case Some(m) =>
      assert [m][1..] == [];
  }

  /** `configuration_validation_serverscluster`: a `server` error holding the
      rendered complaints joined by `<br />` is added exactly when some line
      is complained about; every other entry is returned as it came. */
  function ValidateClusterServers(servers: seq<string>, errors: Errors, render: Message -> string): (r: Errors)
    requires "server" !in errors
    ensures "server" in r <==> exists line | line in servers :: LineMessage(line).Some?
    ensures "server" in r ==>
      r["server"] == Implode(ServerSeparator, Render(render, ClusterMessages(servers)))
    ensures forall k | k in errors :: k in r && r[k] == errors[k]
    ensures r.Keys <= errors.Keys + {"server"}
  {
    ClusterMessagesEmpty(servers);
    var ms := ClusterMessages(servers);
    if ms == [] then errors
    else errors["server" := Implode(ServerSeparator, Render(render, ms))]
  }

  /** The loop of `configuration_validation_serverscluster` as written: the
      rendered complaints accumulate in a list under `server`, which is
      joined at the end when it exists. It computes the function above. */
  method ValidateClusterServersLoop(servers: seq<string>, errors: Errors, render: Message -> string)
    returns (r: Errors)
    requires "server" !in errors
    ensures r == ValidateClusterServers(servers, errors, render)
  {
    var pending: seq<string> := [];
    var i := 0;
    while i < |servers|
      invariant 0 <= i <= |servers|
      invariant pending == Render(render, ClusterMessages(servers[..i]))
    {
      RenderedMessagesSnoc(render, servers[..i], servers[i]);
      assert servers[..i + 1] == servers[..i] + [servers[i]];
      var server := Trim(servers[i]);
      if !IsEmpty(server) {
        var addressPort := Explode(server, ':');
        if |addressPort| != 2 {
          assert LineMessage(servers[i]) == Some(ClusterServer(server));
          pending := pending + [render(ClusterServer(server))];
        } else {
          assert LineMessage(servers[i]) == None;
        }
      } else {
        assert LineMessage(servers[i]) == None;
      }
      i := i + 1;
    }
    assert servers[..i] == servers;
    if pending == [] {
      r := errors;
    } else {
      r := errors["server" := Implode(ServerSeparator, pending)];
    }
  }

  /** `configuration_validation`. Cluster mode without cluster support adds a
      `clustermode` error. In single-server mode a `server` error is added
      exactly when the server field holds a newline (so two lines, or one
      line and a trailing newline); a missing port is fine. In cluster mode
      the lines are checked one by one. Only `clustermode` and `server` can be
      added, and nothing is removed; an incoming `clustermode` error is kept
      unless it is overwritten, and so is an incoming `server` error in
      single-server mode with a one-line field. Cluster mode requires that no
      `server` error came in, as PHP fails on a string there. */
  function Validate(clusterAvailable: bool, data: FormData, errors: Errors, render: Message -> string)
    : (r: Errors)
    requires IsClusterMode(data) ==> "server" !in errors
    ensures "clustermode" in r <==> "clustermode" in errors || (!clusterAvailable && IsClusterMode(data))
    ensures !clusterAvailable && IsClusterMode(data) ==> r["clustermode"] == render(ClusterModeUnavailable)
    ensures "clustermode" in errors && !(!clusterAvailable && IsClusterMode(data)) ==>
      r["clustermode"] == errors["clustermode"]
    ensures !IsClusterMode(data) ==>
      ("server" in r <==> "server" in errors || '\n' in Field(data, "server"))
    ensures !IsClusterMode(data) && '\n' in Field(data, "server") ==> r["server"] == render(SingleServerOnly)
    ensures !IsClusterMode(data) && '\n' !in Field(data, "server") && "server" in errors ==>
      r["server"] == errors["server"]
    ensures IsClusterMode(data) ==>
      var lines := Explode(Field(data, "server"), '\n');
      && ("server" in r <==> exists line | line in lines :: LineMessage(line).Some?)
      && ("server" in r ==> r["server"] == Implode(ServerSeparator, Render(render, ClusterMessages(lines))))
    ensures forall k | k in errors && k != "clustermode" && k != "server" :: k in r && r[k] == errors[k]
    ensures errors.Keys <= r.Keys <= errors.Keys + {"clustermode", "server"}
  {
    var cluster := IsClusterMode(data);
    var servers := Explode(Field(data, "server"), '\n');
    var checked :=
      if !clusterAvailable && cluster then errors["clustermode" := render(ClusterModeUnavailable)]
      else errors;
    ExplodeSingle(Field(data, "server"), '\n');
    if cluster then ValidateClusterServers(servers, checked, render)
    else if |servers| != 1 then checked["server" := render(SingleServerOnly)]
    else checked
  }

  /** The form is accepted (no error is added to a clean slate) exactly when
      either single-server mode has a one-line server field, or cluster mode
      is available and no line of the server list is complained about. */
  lemma ValidateAccepts(clusterAvailable: bool, data: FormData, errors: Errors, render: Message -> string)
    requires "clustermode" !in errors && "server" !in errors
    ensures var lines := Explode(Field(data, "server"), '\n');
      Validate(clusterAvailable, data, errors, render) == errors
      <==>
      if IsClusterMode(data) then clusterAvailable && ClusterMessages(lines) == []
      else '\n' !in Field(data, "server")
  {
    var r := Validate(clusterAvailable, data, errors, render);
    var lines := Explode(Field(data, "server"), '\n');
    if IsClusterMode(data) && clusterAvailable && ClusterMessages(lines) == [] {
      assert r.Keys == errors.Keys;
    }
    if !IsClusterMode(data) && '\n' !in Field(data, "server") {
      assert r.Keys == errors.Keys;
    }
  }
}
