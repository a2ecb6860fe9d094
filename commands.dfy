/**
 * The kubectl commands tui.py runs over ssh (`connect_and_run_kubectl`, lines
 * 162-173, `run_kubectl_get_pods`, lines 175-188, and the logs command of line
 * 420) and the pod names read from `kubectl get pods --no-headers` (lines
 * 397-402).
 */
module Commands {
  import opened Text

  /** Lines 167, 181 and 420: `--context CONTEXT ` when a context is set; an empty context is
      falsy in Python and adds nothing, like a missing one. */
  function ContextFlag(context: Option<string>): string {
    if context.Some? && context.value != "" then "--context " + context.value + " " else ""
  }

  /** Lines 167-169: `ssh JUMPHOST 'kubectl [--context CONTEXT ]-n NAMESPACE COMMAND'`. */
  function KubectlCommand(jumphost: string, context: Option<string>, namespace: string, command: string): string {
    "ssh " + jumphost + " '" + ("kubectl " + ContextFlag(context) + "-n " + namespace + " " + command) + "'"
  }

  const GetPods := "get pods --no-headers"

  /** Lines 181-183. */
  function GetPodsCommand(jumphost: string, context: Option<string>, namespace: string): string {
    "ssh " + jumphost + " '" + ("kubectl " + ContextFlag(context) + "-n " + namespace + " get pods --no-headers") + "'"
  }

  /** Line 420, written out separately in `main`. */
  function LogsCommand(jumphost: string, context: Option<string>, namespace: string, pod: string): string {
    "ssh " + jumphost + " 'kubectl " + ContextFlag(context) + "-n " + namespace + " logs " + pod + "'"
  }

  lemma GetPodsShape(jumphost: string, flag: string, namespace: string)
    ensures "ssh " + jumphost + " '" + ("kubectl " + flag + "-n " + namespace + " get pods --no-headers") + "'"
         == "ssh " + jumphost + " '" + ("kubectl " + flag + "-n " + namespace + " " + GetPods) + "'"
  {
    var x := "kubectl " + flag + "-n " + namespace;
    assert x + " get pods --no-headers" == x + " " + GetPods;
  }

  lemma LogsShape(jumphost: string, flag: string, namespace: string, pod: string)
    ensures "ssh " + jumphost + " 'kubectl " + flag + "-n " + namespace + " logs " + pod + "'"
         == "ssh " + jumphost + " '" + ("kubectl " + flag + "-n " + namespace + " " + ("logs " + pod)) + "'"
  {
  }

  /** The pod listing and the logs command are the generic kubectl command with `get pods
      --no-headers` and with `logs POD`. */
  lemma CommandsAgree(jumphost: string, context: Option<string>, namespace: string, pod: string)
    ensures GetPodsCommand(jumphost, context, namespace) == KubectlCommand(jumphost, context, namespace, GetPods)
    ensures LogsCommand(jumphost, context, namespace, pod) == KubectlCommand(jumphost, context, namespace, "logs " + pod)
  {
    GetPodsShape(jumphost, ContextFlag(context), namespace);
    LogsShape(jumphost, ContextFlag(context), namespace, pod);
  }

  predicate NoSpace(s: string) { ' ' !in s }

  /** The `--context` words, present exactly when the context is set and not empty. */
  function ContextWords(context: Option<string>): (ws: seq<string>)
    ensures ws != [] <==> context.Some? && context.value != ""
  {
    if context.Some? && context.value != "" then ["--context", context.value] else []
  }

  /** The command with every separating space written as a separator of its own. */
  lemma KubectlSpaced(jumphost: string, flag: string, namespace: string, command: string)
    ensures "ssh " + jumphost + " '" + ("kubectl " + flag + "-n " + namespace + " " + command) + "'"
         == "ssh" + [' '] + (jumphost + [' '] + ("'kubectl" + [' '] + (flag + ("-n" + [' '] + (namespace + [' '] + (command + "'"))))))
  {
  }

  lemma FlagSpaced(c: string, tail: string)
    ensures "--context " + c + " " + tail == "--context" + [' '] + (c + [' '] + tail)
  {
  }

  /** Cut at spaces, the words after `-n` are the namespace and the words of the command. */
  lemma NamespaceWords(namespace: string, rest: string)
    requires NoSpace(namespace)
    ensures Split("-n" + [' '] + (namespace + [' '] + rest), ' ') == ["-n", namespace] + Split(rest, ' ')
  {
    SplitCons(namespace, ' ', rest);
    SplitCons("-n", ' ', namespace + [' '] + rest);
  }

  /** Cut at spaces, the context flag contributes its words. */
  lemma FlagWords(context: Option<string>, tail: string)
    requires context.Some? ==> NoSpace(context.value)
    ensures Split(ContextFlag(context) + tail, ' ') == ContextWords(context) + Split(tail, ' ')
  {
    if ContextFlag(context) != "" {
      var c := context.value;
      FlagSpaced(c, tail);
      SplitCons(c, ' ', tail);
      SplitCons("--context", ' ', c + [' '] + tail);
    } else {
      assert ContextFlag(context) + tail == tail;
    }
  }

  /** Cut at spaces, the command is `ssh`, the jumphost, `'kubectl`, the context option when there
      is one, `-n` and the namespace, followed by the words of the kubectl command itself. */
  lemma KubectlWords(jumphost: string, context: Option<string>, namespace: string, command: string)
    requires NoSpace(jumphost) && NoSpace(namespace) && (context.Some? ==> NoSpace(context.value))
    ensures Split(KubectlCommand(jumphost, context, namespace, command), ' ')
            == ["ssh", jumphost, "'kubectl"] + ContextWords(context) + ["-n", namespace] + Split(command + "'", ' ')
  {
    var rest := command + "'";
    var tail := "-n" + [' '] + (namespace + [' '] + rest);
    var mid := ContextFlag(context) + tail;
    KubectlSpaced(jumphost, ContextFlag(context), namespace, command);
    NamespaceWords(namespace, rest);
    FlagWords(context, tail);
    SshWords(jumphost, mid);
    WordsShape(["ssh", jumphost, "'kubectl"], ContextWords(context), ["-n", namespace], Split(rest, ' '));
  }

  /** Cut at spaces, the words before the context option are `ssh`, the jumphost and `'kubectl`. */
  lemma SshWords(jumphost: string, mid: string)
    requires NoSpace(jumphost)
    ensures Split("ssh" + [' '] + (jumphost + [' '] + ("'kubectl" + [' '] + mid)), ' ')
            == ["ssh", jumphost, "'kubectl"] + Split(mid, ' ')
  {
    ThreeWords("ssh", jumphost, "'kubectl", mid);
  }

  lemma ThreeWords(x: string, y: string, z: string, mid: string)
    requires ' ' !in x && ' ' !in y && ' ' !in z
    ensures Split(x + [' '] + (y + [' '] + (z + [' '] + mid)), ' ') == [x, y, z] + Split(mid, ' ')
  {
    SplitCons(z, ' ', mid);
    SplitCons(y, ' ', z + [' '] + mid);
    SplitCons(x, ' ', y + [' '] + (z + [' '] + mid));
  }

  lemma WordsShape(a: seq<string>, b: seq<string>, c: seq<string>, d: seq<string>)
    ensures a + (b + (c + d)) == a + b + c + d
  {
  }

  // ---------------------------------------------------------------------------
  // Pod names (lines 398-402)

  ghost predicate NonBlankToken(t: string) {
    t != [] && forall j :: 0 <= j < |t| ==> !IsSpace(t[j])
  }

  /** The first whitespace-separated word of every line that has one, in line order. */
  function PodNames(lines: seq<string>): (pods: seq<string>)
    ensures |pods| <= |lines|
    ensures forall k :: 0 <= k < |pods| ==> NonBlankToken(pods[k])
    decreases |lines|
  {
    if lines == [] then []
    else
      var rest := PodNames(lines[..|lines| - 1]);
      match FirstToken(lines[|lines| - 1])
      case None => rest
      case Some(t) => rest + [t]
  }

  /** Blank lines give no pod; every other line gives exactly one. */
  lemma {:induction false} PodNamesAppend(a: seq<string>, b: seq<string>)
    ensures PodNames(a + b) == PodNames(a) + PodNames(b)
    decreases |b|
  {
    if b == [] {
      assert a + b == a;
    } else {
      var b' := b[..|b| - 1];
      PodNamesAppend(a, b');
      assert (a + b)[..|a + b| - 1] == a + b';
      assert (a + b)[|a + b| - 1] == b[|b| - 1];
    }
  }

  /** The pod of a `kubectl get pods` row: the name in the first column, whatever follows after
      whitespace. */
  lemma PodOfRow(name: string, gap: string, columns: string)
    requires NonBlankToken(name)
    requires gap != [] && AllSpace(gap)
    ensures FirstToken(name + gap + columns) == Some(name)
  {
    var row := name + gap + columns;
    var b := |name|;
    assert forall k :: 0 <= k < b ==> row[k] == name[k];
    assert row[b] == gap[0];
    SkipWhileExact(row, 0, 0, IsSpace);
    SkipWhileExact(row, 0, b, NotSpace);
    assert row[0..b] == name;
  }

  lemma PodNamesOne(row: string)
    ensures PodNames([row]) == if FirstToken(row).Some? then [FirstToken(row).value] else []
  {
    assert [row][..0] == [];
  }

  lemma Snoc<T>(s: seq<T>)
    requires s != []
    ensures s[..|s| - 1] + [s[|s| - 1]] == s
  {
  }

  /** Rows `NAME GAP COLUMNS`, one per pod. */
  function Table(names: seq<string>, gap: string, columns: seq<string>): (rows: seq<string>)
    requires |columns| == |names|
    ensures |rows| == |names|
    decreases |names|
  {
    if names == [] then []
    else
      var n := |names| - 1;
      Table(names[..n], gap, columns[..n]) + [names[n] + gap + columns[n]]
  }

  /** A table of rows `NAME   COLUMNS...` lists exactly its names, in order. */
  lemma {:induction false} PodTable(names: seq<string>, gap: string, columns: seq<string>)
    requires |columns| == |names|
    requires forall k :: 0 <= k < |names| ==> NonBlankToken(names[k])
    requires gap != [] && AllSpace(gap)
    ensures PodNames(Table(names, gap, columns)) == names
    decreases |names|
  {
    if names != [] {
      var n := |names| - 1;
      var row := names[n] + gap + columns[n];
      PodTable(names[..n], gap, columns[..n]);
      PodOfRow(names[n], gap, columns[n]);
      PodNamesOne(row);
      PodNamesAppend(Table(names[..n], gap, columns[..n]), [row]);
      Snoc(names);
    }
  }

  /** The `for line in pods_output.splitlines()` loop of lines 398-402. */
  method CollectPods(podsOutput: string) returns (pods: seq<string>)
    ensures pods == PodNames(SplitLines(podsOutput))
  {
    var lines := SplitLines(podsOutput);
    pods := [];
    for i := 0 to |lines|
      invariant pods == PodNames(lines[..i])
    {
      assert lines[..i + 1][..i] == lines[..i];
      var first := FirstToken(lines[i]);
      if first.Some? {
        pods := pods + [first.value];
      }
    }
    assert lines[..|lines|] == lines;
  }
}
