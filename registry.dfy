/** The metric registry of `caliper/registry.py`: metrics stored under
    dotted names in a tree of nested namespaces. A name splits on `.` into
    labels, every label must match `RE_LABEL`, and registering walks the
    labels, creating the namespaces that are missing. */
module Registries {
  import opened Outcomes

  // ---------------------------------------------------------------------
  // Names and labels
  // ---------------------------------------------------------------------

  /** Why a name was refused. */
  datatype RegistryError =
    | InvalidName                // a name with no labels
    | InvalidLabel(text: string) // the first label that does not match `RE_LABEL`
    | DuplicateName              // the name, or a prefix of it, already holds a metric

  /** The index of the first `c` in `s`. */
  function IndexOf(s: string, c: char): (i: nat)
    requires c in s
    ensures i < |s| && s[i] == c && c !in s[..i]
  {
    if s[0] == c then 0
    else
      assert s == [s[0]] + s[1..];
      var j := IndexOf(s[1..], c);
      assert s[..j + 1] == [s[0]] + s[1..][..j];
      j + 1
  }

  /** `s.split('.')`: the pieces between the dots, at least one, each
      without a dot. */
  function Split(s: string): (labels: seq<string>)
    ensures labels != []
    ensures forall i :: 0 <= i < |labels| ==> '.' !in labels[i]
    decreases |s|
  {
    if '.' in s then
      var i := IndexOf(s, '.');
      [s[..i]] + Split(s[i + 1..])
    else
      [s]
  }

  /** `'.'.join(labels)`. */
  function Join(labels: seq<string>): string
    requires labels != []
  {
    if |labels| == 1 then labels[0] else labels[0] + "." + Join(labels[1..])
  }

  /** Joining the pieces of a split gives the name back. */
  lemma {:induction false} JoinSplit(s: string)
    ensures Join(Split(s)) == s
    decreases |s|
  {
    if '.' in s {
      var i := IndexOf(s, '.');
      JoinSplit(s[i + 1..]);
      assert Split(s)[1..] == Split(s[i + 1..]);
      assert s == s[..i] + "." + s[i + 1..];
    }
  }

  /** Splitting a join of dot-free labels gives the labels back. */
  lemma {:induction false} SplitJoin(labels: seq<string>)
    requires labels != []
    requires forall i :: 0 <= i < |labels| ==> '.' !in labels[i]
    ensures Split(Join(labels)) == labels
  {
    var s := Join(labels);
    if |labels| > 1 {
      var rest := Join(labels[1..]);
      assert s == labels[0] + "." + rest;
      assert s[|labels[0]|] == '.';
      assert s[..|labels[0]|] == labels[0];
      assert '.' in s;
      assert IndexOf(s, '.') == |labels[0]|;
      assert s[|labels[0]| + 1..] == rest;
      SplitJoin(labels[1..]);
    } else {
      assert s == labels[0];
    }
  }

  predicate IsLetter(c: char) { 'a' <= c <= 'z' || 'A' <= c <= 'Z' }

  predicate IsDigit(c: char) { '0' <= c <= '9' }

  /** `[a-z_]` under `re.I`. */
  predicate LabelStart(c: char) { IsLetter(c) || c == '_' }

  /** `[a-z0-9_]` under `re.I`. */
  predicate LabelChar(c: char) { LabelStart(c) || IsDigit(c) }

  /** A letter or underscore followed by letters, digits or underscores. */
  predicate StrictLabel(l: string) {
    |l| >= 1 && LabelStart(l[0]) && forall i :: 1 <= i < |l| ==> LabelChar(l[i])
  }

  /** `RE_LABEL.match(l)`: `$` also matches before one final newline, so a
      strict label followed by `\n` matches too. */
  predicate MatchesLabel(l: string) {
    StrictLabel(l) || (|l| >= 2 && l[|l| - 1] == '\n' && StrictLabel(l[..|l| - 1]))
  }

  /** A matching label is not empty and has no dot, so it is one whole
      piece of a split. */
  lemma MatchesLabelShape(l: string)
    requires MatchesLabel(l)
    ensures l != [] && '.' !in l
  {
    if '.' in l {
      var i :| 0 <= i < |l| && l[i] == '.';
    }
  }

  lemma LabelExamples()
    ensures MatchesLabel("_x9") && MatchesLabel("Timer") && MatchesLabel("a\n")
    ensures !MatchesLabel("") && !MatchesLabel("9x") && !MatchesLabel("a-b") && !MatchesLabel("a\n\n")
  {
    assert "a\n"[..1] == "a";
    assert "a\n\n"[..2] == "a\n";
    assert !LabelChar("a\n\n"[1]) && !LabelChar("a\n"[1]);
    assert "a-b"[1] == '-';
  }

  /** The first label that does not match, if any. */
  function FirstInvalid(labels: seq<string>): (r: Option<string>)
    ensures r.None? <==> forall i :: 0 <= i < |labels| ==> MatchesLabel(labels[i])
    ensures r.Some? ==> r.value in labels && !MatchesLabel(r.value)
    ensures r.Some? ==> exists i :: 0 <= i < |labels| && labels[i] == r.value
                                    && forall j :: 0 <= j < i ==> MatchesLabel(labels[j])
  {
    if labels == [] then None
    else if !MatchesLabel(labels[0]) then Some(labels[0])
    else
      var rest := FirstInvalid(labels[1..]);
      assert rest.Some? ==> exists i :: 0 <= i < |labels| && labels[i] == rest.value
                                       && forall j :: 0 <= j < i ==> MatchesLabel(labels[j]) by {
        if rest.Some? {
          var k :| 0 <= k < |labels[1..]| && labels[1..][k] == rest.value
                   && forall j :: 0 <= j < k ==> MatchesLabel(labels[1..][j]);
          assert labels[k + 1] == rest.value;
          assert forall j :: 1 <= j < k + 1 ==> labels[j] == labels[1..][j - 1];
        }
      }
      assert labels == [labels[0]] + labels[1..];
      rest
  }

  /** `_split_name(name)`: the labels of a name whose every label matches,
      or the first label that does not. */
  function SplitName(name: string): (r: Result<seq<string>, RegistryError>)
    ensures r.Ok? <==> forall i :: 0 <= i < |Split(name)| ==> MatchesLabel(Split(name)[i])
    ensures r.Ok? ==> r.value == Split(name) && Join(r.value) == name
    ensures r.Err? ==> r.error.InvalidLabel? && r.error.text in Split(name) && !MatchesLabel(r.error.text)
    ensures r.Err? ==> exists i :: 0 <= i < |Split(name)| && Split(name)[i] == r.error.text
                                   && forall j :: 0 <= j < i ==> MatchesLabel(Split(name)[j])
  {
    var labels := Split(name);
    JoinSplit(name);
    if |labels| == 0 then
      Err(InvalidName)
    else
      var bad := FirstInvalid(labels);
      if bad.Some? then Err(InvalidLabel(bad.value)) else Ok(labels)
  }

  /** Joining matching labels with dots gives a name that splits back into
      exactly those labels. */
  lemma SplitNameJoin(labels: seq<string>)
    requires labels != [] && forall i :: 0 <= i < |labels| ==> MatchesLabel(labels[i])
    ensures SplitName(Join(labels)) == Ok(labels)
  {
    forall i | 0 <= i < |labels|
      ensures '.' !in labels[i]
    {
      MatchesLabelShape(labels[i]);
    }
    SplitJoin(labels);
  }

  /** The empty name is refused for its one empty label. */
  lemma SplitNameEmpty()
    ensures SplitName("") == Err(InvalidLabel(""))
  {
  }

  /** An empty label between two dots is refused. */
  lemma SplitNameEmptyLabel()
    ensures SplitName("a..b") == Err(InvalidLabel(""))
  {
    var labels := ["a", "", "b"];
    assert Join(labels[2..]) == "b";
    assert Join(labels[1..]) == ".b";
    assert Join(labels) == "a..b";
    SplitJoin(labels);
    assert MatchesLabel("a");
    assert FirstInvalid(labels) == Some("");
  }

  // ---------------------------------------------------------------------
  // The namespace tree
  // ---------------------------------------------------------------------

  /** An entry of a namespace: a metric, or a nested namespace. */
  datatype Node<M> = Metric(metric: M) | Namespace(children: map<string, Node<M>>)

  /** The entry a sequence of labels leads to: `None` when a label is
      missing or a metric stands in the middle of the path. */
  function Lookup<M>(data: map<string, Node<M>>, path: seq<string>): Option<Node<M>>
    requires path != []
    decreases |path|
  {
    if path[0] !in data then None
    else if |path| == 1 then Some(data[path[0]])
    else match data[path[0]]
      case Metric(_) => None
      case Namespace(children) => Lookup(children, path[1..])
  }

  /** The namespaces created for the labels `rest`, holding `metric` at
      the end. */
  function Chain<M>(rest: seq<string>, metric: M): Node<M>
    decreases |rest|
  {
    if rest == [] then Metric(metric) else Namespace(map[rest[0] := Chain(rest[1..], metric)])
  }

  /** `register` as the source writes it: a label that is present and a
      namespace is entered; a present metric is a duplicate; a missing label
      gets the chain of new namespaces and the metric. When the whole name
      is already a namespace the walk ends without storing anything. */
  function InsertAsWritten<M>(data: map<string, Node<M>>, labels: seq<string>, metric: M): Result<map<string, Node<M>>, RegistryError>
    requires labels != []
    decreases |labels|
  {
    var head := labels[0];
    if head in data then
      match data[head]
      case Metric(_) => Err(DuplicateName)
      case Namespace(children) =>
        if |labels| == 1 then Ok(data)
        else match InsertAsWritten(children, labels[1..], metric)
          case Ok(c) => Ok(data[head := Namespace(c)])
          case Err(e) => Err(e)
    else
      Ok(data[head := Chain(labels[1..], metric)])
  }

  /** `register` as intended: a name that is already a namespace is a
      duplicate too. */
  function Insert<M>(data: map<string, Node<M>>, labels: seq<string>, metric: M): Result<map<string, Node<M>>, RegistryError>
    requires labels != []
    decreases |labels|
  {
    var head := labels[0];
    if head in data then
      match data[head]
      case Metric(_) => Err(DuplicateName)
      case Namespace(children) =>
        if |labels| == 1 then Err(DuplicateName)
        else match Insert(children, labels[1..], metric)
          case Ok(c) => Ok(data[head := Namespace(c)])
          case Err(e) => Err(e)
    else
      Ok(data[head := Chain(labels[1..], metric)])
  }

  /** The two differ exactly on a name that is already a namespace: there
      the source reports success and stores nothing. */
  lemma {:induction false} InsertAsWrittenDiffers<M>(data: map<string, Node<M>>, labels: seq<string>, metric: M)
    requires labels != []
    ensures InsertAsWritten(data, labels, metric)
            == if Lookup(data, labels).Some? && Lookup(data, labels).value.Namespace? then Ok(data)
               else Insert(data, labels, metric)
    decreases |labels|
  {
    var head := labels[0];
    if head in data && data[head].Namespace? && |labels| > 1 {
      var children := data[head].children;
      InsertAsWrittenDiffers(children, labels[1..], metric);
      if Lookup(children, labels[1..]).Some? && Lookup(children, labels[1..]).value.Namespace? {
        assert data[head := Namespace(children)] == data;
      }
    }
  }

  /** Registering `a.b` and then `a`: the source stores nothing, reports
      nothing, and `a` still names the namespace; the intended registry
      reports a duplicate. */
  lemma NamespaceSwallowsMetric(m1: int, m2: int)
    ensures var d := Insert(map[], ["a", "b"], m1).value;
            && InsertAsWritten(d, ["a"], m2) == Ok(d)
            && Lookup(d, ["a"]) == Some(Namespace(map["b" := Metric(m1)]))
            && Insert(d, ["a"], m2) == Err(DuplicateName)
  {
    var d := Insert(map[], ["a", "b"], m1).value;
    assert ["a", "b"][1..] == ["b"];
    assert d == map["a" := Namespace(map["b" := Metric(m1)])];
  }

  /** The chain of new namespaces leads to the metric. */
  lemma {:induction false} LookupChain<M>(rest: seq<string>, metric: M)
    requires rest != []
    ensures Lookup(Chain(rest, metric).children, rest) == Some(Metric(metric))
    ensures forall k :: 1 <= k < |rest| ==>
              Lookup(Chain(rest, metric).children, rest[..k]).Some? && Lookup(Chain(rest, metric).children, rest[..k]).value.Namespace?
    decreases |rest|
  {
    var children := Chain(rest, metric).children;
    if |rest| > 1 {
      LookupChain(rest[1..], metric);
      forall k | 1 <= k < |rest|
        ensures Lookup(children, rest[..k]).Some? && Lookup(children, rest[..k]).value.Namespace?
      {
        if k > 1 {
          assert rest[..k][1..] == rest[1..][..k - 1];
        }
      }
    }
  }

  /** `p` is a prefix of `labels`. */
  predicate IsPrefix(p: seq<string>, labels: seq<string>) {
    |p| <= |labels| && p == labels[..|p|]
  }

  /** The chain holds nothing off its own path. */
  lemma {:induction false} ChainOffPath<M>(rest: seq<string>, metric: M, q: seq<string>)
    requires rest != [] && q != [] && !IsPrefix(q, rest)
    ensures Lookup(Chain(rest, metric).children, q) == None
    decreases |rest|
  {
    if q[0] == rest[0] && |q| > 1 && |rest| > 1 {
      assert !IsPrefix(q[1..], rest[1..]);
      ChainOffPath(rest[1..], metric, q[1..]);
    }
  }

  /** After a successful registration the name holds the metric and every
      proper prefix of it holds a namespace. */
  lemma {:induction false} InsertRoundTrip<M>(data: map<string, Node<M>>, labels: seq<string>, metric: M)
    requires labels != [] && Insert(data, labels, metric).Ok?
    ensures Lookup(Insert(data, labels, metric).value, labels) == Some(Metric(metric))
    ensures forall k :: 1 <= k < |labels| ==>
              var d := Insert(data, labels, metric).value;
              Lookup(d, labels[..k]).Some? && Lookup(d, labels[..k]).value.Namespace?
    decreases |labels|
  {
    var head := labels[0];
    var d' := Insert(data, labels, metric).value;
    if head in data {
      var children := data[head].children;
      var c := Insert(children, labels[1..], metric).value;
      InsertRoundTrip(children, labels[1..], metric);
      forall k | 1 <= k < |labels|
        ensures Lookup(d', labels[..k]).Some? && Lookup(d', labels[..k]).value.Namespace?
      {
        if k > 1 {
          assert labels[..k][1..] == labels[1..][..k - 1];
        }
      }
    } else if |labels| > 1 {
      LookupChain(labels[1..], metric);
      forall k | 1 <= k < |labels|
        ensures Lookup(d', labels[..k]).Some? && Lookup(d', labels[..k]).value.Namespace?
      {
        if k > 1 {
          assert labels[..k][1..] == labels[1..][..k - 1];
        }
      }
    }
  }

  /** A successful registration changes only the entries along the name:
      every path that is not a prefix of the name leads where it did. */
  lemma {:induction false} InsertFrame<M>(data: map<string, Node<M>>, labels: seq<string>, metric: M, p: seq<string>)
    requires labels != [] && Insert(data, labels, metric).Ok?
    requires p != [] && !IsPrefix(p, labels)
    ensures Lookup(Insert(data, labels, metric).value, p) == Lookup(data, p)
    decreases |labels|
  {
    var head := labels[0];
    var d' := Insert(data, labels, metric).value;
    if p[0] == head {
      assert |p| > 1;
      assert !IsPrefix(p[1..], labels[1..]);
      if head in data {
        InsertFrame(data[head].children, labels[1..], metric, p[1..]);
      } else if |labels| > 1 {
        ChainOffPath(labels[1..], metric, p[1..]);
      }
    }
  }

  /** The name, or some prefix of it that holds a metric, is taken. */
  ghost predicate Occupied<M>(data: map<string, Node<M>>, labels: seq<string>) {
    exists k :: 1 <= k <= |labels| && Lookup(data, labels[..k]).Some?
                && (k == |labels| || Lookup(data, labels[..k]).value.Metric?)
  }

  /** Registration fails exactly when the name is occupied, and then with
      `DuplicateName`. */
  lemma {:induction false} InsertFails<M>(data: map<string, Node<M>>, labels: seq<string>, metric: M)
    requires labels != []
    ensures Insert(data, labels, metric).Err? <==> Occupied(data, labels)
    ensures Insert(data, labels, metric).Err? ==> Insert(data, labels, metric).error == DuplicateName
    decreases |labels|
  {
    var head := labels[0];
    assert labels[..1] == [head];
    if head in data && data[head].Namespace? && |labels| > 1 {
      var children := data[head].children;
      InsertFails(children, labels[1..], metric);
      if Occupied(data, labels) {
        var k :| 1 <= k <= |labels| && Lookup(data, labels[..k]).Some?
                 && (k == |labels| || Lookup(data, labels[..k]).value.Metric?);
        assert k > 1;
        assert labels[..k][1..] == labels[1..][..k - 1];
        assert Occupied(children, labels[1..]);
      }
      if Occupied(children, labels[1..]) {
        var k :| 1 <= k <= |labels[1..]| && Lookup(children, labels[1..][..k]).Some?
                 && (k == |labels[1..]| || Lookup(children, labels[1..][..k]).value.Metric?);
        assert labels[..k + 1][1..] == labels[1..][..k];
        assert Lookup(data, labels[..k + 1]) == Lookup(children, labels[1..][..k]);
      }
    }
  }

  // ---------------------------------------------------------------------
  // Walking the tree
  // ---------------------------------------------------------------------

  /** `stack` holds the namespaces along the first `i` labels, each entered
      from the one before. */
  ghost predicate Along<M>(stack: seq<map<string, Node<M>>>, labels: seq<string>, i: nat) {
    && |stack| == i + 1 && i < |labels|
    && forall j :: 0 <= j < i ==> labels[j] in stack[j] && stack[j][labels[j]] == Namespace(stack[j + 1])
  }

  /** The namespaces from level `j` down to level `i` with `sub` put in
      place of level `i`. */
  function Rebuild<M>(stack: seq<map<string, Node<M>>>, labels: seq<string>, j: nat, i: nat, sub: map<string, Node<M>>): map<string, Node<M>>
    requires j <= i < |stack| && i <= |labels|
    decreases i - j
  {
    if j == i then sub else stack[j][labels[j] := Namespace(Rebuild(stack, labels, j + 1, i, sub))]
  }

  /** Registering at level `j` is registering the rest of the name at level
      `i`, then putting the result back along the path. */
  lemma {:induction false} InsertAlong<M>(stack: seq<map<string, Node<M>>>, labels: seq<string>, j: nat, i: nat, metric: M)
    requires Along(stack, labels, i) && j <= i
    ensures Insert(stack[j], labels[j..], metric)
            == match Insert(stack[i], labels[i..], metric)
               case Ok(d) => Ok(Rebuild(stack, labels, j, i, d))
               case Err(e) => Err(e)
    decreases i - j
  {
    if j < i {
      InsertAlong(stack, labels, j + 1, i, metric);
      assert labels[j..][1..] == labels[j + 1..];
    }
  }

  /** `Registry`: the root namespace. The source's nested dictionaries are
      updated in place; here the tree is a value and the path to the change
      is rebuilt. */
  class Registry<M> {
    var root: map<string, Node<M>>

    constructor ()
      ensures root == map[]
    {
      root := map[];
    }

    /** `register(name, metric)`: refuses an invalid name and an occupied
        one, leaving the registry as it was; otherwise stores the metric,
        creating the missing namespaces on the way. */
    method Register(name: string, metric: M) returns (r: Result<(), RegistryError>)
      modifies this
      ensures SplitName(name).Err? ==> r == Err(SplitName(name).error) && root == old(root)
      ensures SplitName(name).Ok? ==>
                var ins := Insert(old(root), SplitName(name).value, metric);
                && (ins.Ok? ==> r == Ok(()) && root == ins.value)
                && (ins.Err? ==> r == Err(ins.error) && root == old(root))
    {
      var split := SplitName(name);
      if split.Err? {
        return Err(split.error);
      }
      var labels := split.value;
      var data := root;
      var stack := [root];
      var i := 0;
      while i < |labels| - 1 && labels[i] in data && data[labels[i]].Namespace?
        invariant Along(stack, labels, i)
        invariant stack[0] == root && stack[i] == data
      {
        data := data[labels[i]].children;
        stack := stack + [data];
        i := i + 1;
      }
      InsertAlong(stack, labels, 0, i, metric);
      assert labels[0..] == labels;
      assert labels[i..][1..] == labels[i + 1..];
      var head := labels[i];
      if head in data {
        return Err(DuplicateName);
      }
      // The source creates one new namespace per remaining label.
      var sub := data[head := Chain(labels[i + 1..], metric)];
      var j := i;
      while j > 0
        invariant j <= i
        invariant sub == Rebuild(stack, labels, j, i, data[head := Chain(labels[i + 1..], metric)])
      {
        sub := stack[j - 1][labels[j - 1] := Namespace(sub)];
        j := j - 1;
      }
      root := sub;
      r := Ok(());
    }

    /** `query(name)`: what the name leads to, `None` when a label is
        missing. */
    method Query(name: string) returns (r: Result<Option<Node<M>>, RegistryError>)
      ensures SplitName(name).Err? ==> r == Err(SplitName(name).error)
      ensures SplitName(name).Ok? ==> r == Ok(Lookup(root, SplitName(name).value))
    {
      var split := SplitName(name);
      if split.Err? {
        return Err(split.error);
      }
      var labels := split.value;
      var data := root;
      var i := 0;
      assert labels[0..] == labels;
      while i < |labels| - 1 && labels[i] in data && data[labels[i]].Namespace?
        invariant 0 <= i < |labels|
        invariant Lookup(root, labels) == Lookup(data, labels[i..])
      {
        assert labels[i..][1..] == labels[i + 1..];
        data := data[labels[i]].children;
        i := i + 1;
      }
      if labels[i] in data && i == |labels| - 1 {
        r := Ok(Some(data[labels[i]]));
      } else {
        r := Ok(None);
      }
    }
  }

  /** Registering then querying the same name gives the metric back; a
      prefix of it gives a namespace. */
  lemma RegisterThenQuery<M>(root: map<string, Node<M>>, name: string, metric: M)
    requires SplitName(name).Ok? && Insert(root, SplitName(name).value, metric).Ok?
    ensures var labels := SplitName(name).value;
            var root' := Insert(root, labels, metric).value;
            && Lookup(root', labels) == Some(Metric(metric))
            && forall k :: 1 <= k < |labels| ==> Lookup(root', labels[..k]).Some? && Lookup(root', labels[..k]).value.Namespace?
  {
    InsertRoundTrip(root, SplitName(name).value, metric);
  }
}
