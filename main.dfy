/** The command line of `Main.java`: the one-pass tokenizer that turns the
    arguments into a map from option name to the values that follow it, and
    the defaults `initClient` and `initServer` fill in. */
module CommandLine {

  datatype Option<T> = None | Some(value: T)

  /** How a call ends: with a value, or with an exception that ends the
      program. */
  datatype Outcome<T> = Done(value: T) | Thrown

  const DEFAULT_HOST := "localhost"
  const DEFAULT_PORT := 10036
  const DEFAULT_GREMLIN := 0.0
  const DEFAULT_REQUEST_FILE := "TestFile.html"
  const DEFAULT_OUT_FILE := "reassembled.html"

  // ---------------------------------------------------------------------
  // parseCommandArgs
  // ---------------------------------------------------------------------

  /** An argument that starts with a dash. */
  predicate IsOption(a: string)
  {
    |a| > 0 && a[0] == '-'
  }

  /** Whether the tokenizer stops at argument `j` (given that it got that
      far): an empty argument makes `charAt(0)` throw, a lone dash ends
      parsing, and so does a value with no option before it, which can only
      be the first argument. */
  predicate Halts(args: seq<string>, j: int)
    requires 0 <= j < |args|
  {
    |args[j]| == 0 || (|args[j]| == 1 && args[j][0] == '-') || (j == 0 && args[j][0] != '-')
  }

  /** The index of the first argument where the tokenizer stops, or the
      number of arguments if it reads them all. */
  function StopFrom(args: seq<string>, j: nat): (n: nat)
    requires j <= |args|
    ensures j <= n <= |args|
    ensures forall i :: j <= i < n ==> !Halts(args, i)
    ensures n < |args| ==> Halts(args, n)
    decreases |args| - j
  {
    if j == |args| then j else if Halts(args, j) then j else StopFrom(args, j + 1)
  }

  function Stop(args: seq<string>): (n: nat)
    ensures n <= |args|
    ensures forall i :: 0 <= i < n ==> !Halts(args, i)
    ensures n < |args| ==> Halts(args, n)
  {
    StopFrom(args, 0)
  }

  /** The tokenizer reads the first `n` arguments without stopping. */
  predicate Scannable(args: seq<string>, n: nat)
  {
    n <= |args| && forall j :: 0 <= j < n ==> !Halts(args, j)
  }

  /** The map and the current option after reading the first `n`
      arguments, one at a time: an option puts a fresh empty list under its
      name (replacing any earlier one) and becomes current; a value is
      appended to the current option's list. */
  function Scan(args: seq<string>, n: nat): (r: (map<string, seq<string>>, Option<string>))
    requires Scannable(args, n)
    ensures n > 0 ==> r.1.Some? && r.1.value in r.0
    ensures n == 0 ==> r.1 == None
  {
    if n == 0 then (map[], None)
    else
      var (out, current) := Scan(args, n - 1);
      var a := args[n - 1];
      if IsOption(a) then (out[a[1..] := []], Some(a[1..]))
      else
        assert !Halts(args, 0);
        (out[current.value := out[current.value] + [a]], current)
  }

  /** `parseCommandArgs(args)`: the map built from the arguments before the
      one where the tokenizer stops, or `Thrown` when that argument is empty. */
  method ParseCommandArgs(args: seq<string>) returns (r: Outcome<map<string, seq<string>>>)
    ensures r.Thrown? <==> Stop(args) < |args| && args[Stop(args)] == ""
    ensures r.Done? ==> r.value == Scan(args, Stop(args)).0
    ensures |args| > 0 && args[0] != "" && !IsOption(args[0]) ==> r == Done(map[])
  {
    var out: map<string, seq<string>> := map[];
    var options: Option<string> := None;
    var i := 0;
    while i < |args|
      invariant i <= Stop(args)
      invariant (out, options) == Scan(args, i)
    {
      var a := args[i];
      if a == "" {
        assert Halts(args, i);
        return Thrown;
      }
      if a[0] == '-' {
        if |a| < 2 {
          assert Halts(args, i);
          return Done(out);
        }
        out := out[a[1..] := []];
        options := Some(a[1..]);
      } else if options.Some? {
        out := out[options.value := out[options.value] + [a]];
      } else {
        return Done(out);
      }
      assert !Halts(args, i);
      i := i + 1;
    }
    return Done(out);
  }

  // ---------------------------------------------------------------------
  // What the tokenizer's map holds
  // ---------------------------------------------------------------------

  /** The first option among arguments `s` to `n - 1`, or `n` if there is
      none. */
  function NextOption(args: seq<string>, s: nat, n: nat): (r: nat)
    requires s <= n <= |args|
    ensures s <= r <= n
    ensures forall i :: s <= i < r ==> !IsOption(args[i])
    ensures r < n ==> IsOption(args[r])
    decreases n - s
  {
    if s == n then s else if IsOption(args[s]) then s else NextOption(args, s + 1, n)
  }

  /** The last option among the first `n` arguments, or -1 if there is none. */
  function LastOption(args: seq<string>, n: nat): (r: int)
    requires n <= |args|
    ensures -1 <= r < n
    ensures r >= 0 ==> IsOption(args[r])
    ensures forall i :: r < i < n ==> !IsOption(args[i])
  {
    if n == 0 then -1
    else if IsOption(args[n - 1]) then n - 1
    else LastOption(args, n - 1)
  }

  /** Reading one more argument moves the next option after `s` only when
      there was none before. */
  lemma NextOptionStep(args: seq<string>, s: nat, n: nat)
    requires s <= n < |args|
    ensures NextOption(args, s, n + 1) ==
      if NextOption(args, s, n) < n || IsOption(args[n]) then NextOption(args, s, n) else n + 1
  {
  }

  /** The current option is the last option read. */
  lemma {:induction false} ScanCurrent(args: seq<string>, n: nat)
    requires Scannable(args, n)
    ensures LastOption(args, n) == -1 ==> Scan(args, n).1 == None
    ensures LastOption(args, n) >= 0 ==> Scan(args, n).1 == Some(args[LastOption(args, n)][1..])
  {
    if n > 0 {
      ScanCurrent(args, n - 1);
    }
  }

  /** The map's keys are exactly the names of the options read. */
  lemma {:induction false} ScanKeys(args: seq<string>, n: nat)
    requires Scannable(args, n)
    ensures forall k :: k in Scan(args, n).0 <==>
      exists j :: 0 <= j < n && IsOption(args[j]) && args[j][1..] == k
  {
    if n > 0 {
      ScanKeys(args, n - 1);
    }
  }

  lemma SliceStep<T>(s: seq<T>, i: nat, n: nat)
    requires i <= n < |s|
    ensures s[i..n + 1] == s[i..n] + [s[n]]
  {
  }

  /** An option's list holds, in order, the values that follow its last
      occurrence, up to the next option. */
  lemma {:induction false} ScanValues(args: seq<string>, n: nat, j: nat)
    requires Scannable(args, n)
    requires j < n && IsOption(args[j])
    requires forall i :: j < i < n && IsOption(args[i]) ==> args[i][1..] != args[j][1..]
    ensures args[j][1..] in Scan(args, n).0
    ensures Scan(args, n).0[args[j][1..]] == args[j + 1..NextOption(args, j + 1, n)]
  {
    if j == n - 1 {
      assert Scan(args, n).0[args[j][1..]] == [] == args[n..NextOption(args, n, n)];
    } else {
      ScanValues(args, n - 1, j);
      if IsOption(args[n - 1]) {
        ScanValuesAfterOption(args, n, j);
      } else if NextOption(args, j + 1, n - 1) == n - 1 {
        ScanValuesJoin(args, n, j);
      } else {
        ScanValuesSkip(args, n, j);
      }
    }
  }

  /** The step of `ScanValues` where the last argument read is another
      option: the list and the values it holds stay as they were. */
  lemma ScanValuesAfterOption(args: seq<string>, n: nat, j: nat)
    requires Scannable(args, n)
    requires j + 1 < n && IsOption(args[j]) && IsOption(args[n - 1]) && args[n - 1][1..] != args[j][1..]
    requires args[j][1..] in Scan(args, n - 1).0
    requires Scan(args, n - 1).0[args[j][1..]] == args[j + 1..NextOption(args, j + 1, n - 1)]
    ensures args[j][1..] in Scan(args, n).0
    ensures Scan(args, n).0[args[j][1..]] == args[j + 1..NextOption(args, j + 1, n)]
  {
    NextOptionStep(args, j + 1, n - 1);
  }

  /** The step of `ScanValues` where the last argument read is a value and
      no option came after the key's: the value joins the key's list. */
  lemma ScanValuesJoin(args: seq<string>, n: nat, j: nat)
    requires Scannable(args, n)
    requires j + 1 < n && IsOption(args[j]) && !IsOption(args[n - 1])
    requires NextOption(args, j + 1, n - 1) == n - 1
    requires args[j][1..] in Scan(args, n - 1).0
    requires Scan(args, n - 1).0[args[j][1..]] == args[j + 1..n - 1]
    ensures args[j][1..] in Scan(args, n).0
    ensures Scan(args, n).0[args[j][1..]] == args[j + 1..NextOption(args, j + 1, n)]
  {
    var k := args[j][1..];
    NextOptionStep(args, j + 1, n - 1);
    ScanCurrent(args, n - 1);
    assert LastOption(args, n - 1) == j;
    assert Scan(args, n).0[k] == args[j + 1..n - 1] + [args[n - 1]];
    SliceStep(args, j + 1, n - 1);
  }

  /** The step of `ScanValues` where the last argument read is a value that
      follows a later option: the value goes to that option's list. */
  lemma ScanValuesSkip(args: seq<string>, n: nat, j: nat)
    requires Scannable(args, n)
    requires j + 1 < n && IsOption(args[j]) && !IsOption(args[n - 1])
    requires NextOption(args, j + 1, n - 1) < n - 1
    requires forall i :: j < i < n && IsOption(args[i]) ==> args[i][1..] != args[j][1..]
    requires args[j][1..] in Scan(args, n - 1).0
    requires Scan(args, n - 1).0[args[j][1..]] == args[j + 1..NextOption(args, j + 1, n - 1)]
    ensures args[j][1..] in Scan(args, n).0
    ensures Scan(args, n).0[args[j][1..]] == args[j + 1..NextOption(args, j + 1, n)]
  {
    NextOptionStep(args, j + 1, n - 1);
    ScanCurrent(args, n - 1);
    var last := LastOption(args, n - 1);
    assert j < last && Scan(args, n - 1).1.value != args[j][1..];
  }

  // ---------------------------------------------------------------------
  // initClient and initServer
  // ---------------------------------------------------------------------

  /** The settings `initClient` passes to `new Client(...)`. */
  datatype ClientSettings = ClientSettings(port: int, host: string, gremlin: real,
                                           requestFile: string, outFile: string)

  /** The settings `initServer` passes to `new Server(...)`. */
  datatype ServerSettings = ServerSettings(port: int, host: string)

  /** `params.get(key).get(0)` does not throw: the option is absent (and
      not read) or has at least one value. */
  predicate Given(params: map<string, seq<string>>, key: string)
  {
    key in params ==> |params[key]| > 0
  }

  /** The option's first value, or `default` when the option is absent. */
  function FirstOr(params: map<string, seq<string>>, key: string, default: string): string
    requires Given(params, key)
  {
    if key in params then params[key][0] else default
  }

  /** `initClient(params)`: each setting is its option's first value, parsed
      where it is a number, or the default when the option is absent. An
      option with no values, or a number `parse` rejects, throws.
      `parseInt` and `parseDouble` stand for `Integer.parseInt` and
      `Double.parseDouble`. */
  method InitClient(params: map<string, seq<string>>,
                    parseInt: string -> Option<int>, parseDouble: string -> Option<real>)
    returns (r: Outcome<ClientSettings>)
    ensures r.Done? <==>
      && Given(params, "port") && ("port" in params ==> parseInt(params["port"][0]).Some?)
      && Given(params, "host")
      && Given(params, "gremlin") && ("gremlin" in params ==> parseDouble(params["gremlin"][0]).Some?)
      && Given(params, "rfile") && Given(params, "ofile")
    ensures r.Done? ==>
      && r.value.port == (if "port" in params then parseInt(params["port"][0]).value else DEFAULT_PORT)
      && r.value.host == FirstOr(params, "host", DEFAULT_HOST)
      && r.value.gremlin == (if "gremlin" in params then parseDouble(params["gremlin"][0]).value else DEFAULT_GREMLIN)
      && r.value.requestFile == FirstOr(params, "rfile", DEFAULT_REQUEST_FILE)
      && r.value.outFile == FirstOr(params, "ofile", DEFAULT_OUT_FILE)
  {
    var port := DEFAULT_PORT;
    var host := DEFAULT_HOST;
    var gremlin := DEFAULT_GREMLIN;
    var requestFile := DEFAULT_REQUEST_FILE;
    var outFile := DEFAULT_OUT_FILE;
    if "port" in params {
      if |params["port"]| == 0 {
        return Thrown;
      }
      var parsed := parseInt(params["port"][0]);
      if parsed.None? {
        return Thrown;
      }
      port := parsed.value;
    }
    if "host" in params {
      if |params["host"]| == 0 {
        return Thrown;
      }
      host := params["host"][0];
    }
    if "gremlin" in params {
      if |params["gremlin"]| == 0 {
        return Thrown;
      }
      var parsed := parseDouble(params["gremlin"][0]);
      if parsed.None? {
        return Thrown;
      }
      gremlin := parsed.value;
    }
    if "rfile" in params {
      if |params["rfile"]| == 0 {
        return Thrown;
      }
      requestFile := params["rfile"][0];
    }
    if "ofile" in params {
      if |params["ofile"]| == 0 {
        return Thrown;
      }
      outFile := params["ofile"][0];
    }
    return Done(ClientSettings(port, host, gremlin, requestFile, outFile));
  }

  /** `initServer(params)`: the port and host as `initClient` reads them. */
  method InitServer(params: map<string, seq<string>>, parseInt: string -> Option<int>)
    returns (r: Outcome<ServerSettings>)
    ensures r.Done? <==>
      && Given(params, "port") && ("port" in params ==> parseInt(params["port"][0]).Some?)
      && Given(params, "host")
    ensures r.Done? ==>
      && r.value.port == (if "port" in params then parseInt(params["port"][0]).value else DEFAULT_PORT)
      && r.value.host == FirstOr(params, "host", DEFAULT_HOST)
  {
    var port := DEFAULT_PORT;
    var host := DEFAULT_HOST;
    if "port" in params {
      if |params["port"]| == 0 {
        return Thrown;
      }
      var parsed := parseInt(params["port"][0]);
      if parsed.None? {
        return Thrown;
      }
      port := parsed.value;
    }
    if "host" in params {
      if |params["host"]| == 0 {
        return Thrown;
      }
      host := params["host"][0];
    }
    return Done(ServerSettings(port, host));
  }
}
