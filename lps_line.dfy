/**
 * A node of an LPS document: a name, an info value, an indentation level, the
 * ordered child lines (`subs`) and the metadata map. Queries look only at the
 * direct children; serialisation writes a node and its subtree one line per
 * node, indented by tabs.
 */
module Lines {
  import opened Options

  datatype Line = Line(name: string, info: string, level: int, subs: seq<Line>, metadata: map<string, string>)

  /** `new Line(name, info, level)` with its default arguments. */
  function NewLine(name: Option<string>, info: Option<string>, level: Option<int>): (l: Line)
    ensures l.subs == [] && l.metadata == map[]
    ensures name.None? && info.None? && level.None? ==> l.name == "" && l.info == "" && l.level == 0
    ensures Size(l) == 1
  {
    Line(name.GetOr(""), info.GetOr(""), level.GetOr(0), [], map[])
  }

  /** The number of nodes in the subtree. */
  function Size(l: Line): nat
    decreases l
  {
    1 + SizeAll(l.subs)
  }

  function SizeAll(ls: seq<Line>): nat
    decreases ls
  {
    if |ls| == 0 then 0 else SizeAll(ls[..|ls| - 1]) + Size(ls[|ls| - 1])
  }

  /** `add`: the child goes last; earlier children and every other field stay. */
  function Add(parent: Line, sub: Line): (r: Line)
    ensures |r.subs| == |parent.subs| + 1 && r.subs[|parent.subs|] == sub
    ensures r.subs[..|parent.subs|] == parent.subs
    ensures r.(subs := parent.subs) == parent
    ensures Size(r) == Size(parent) + Size(sub)
  {
    var r := parent.(subs := parent.subs + [sub]);
    assert r.subs[..|parent.subs|] == parent.subs;
    r
  }

  /** The position of the first line named `name`. */
  function FirstIndex(ls: seq<Line>, name: string): (r: Option<nat>)
    ensures r.Some? ==> r.value < |ls| && ls[r.value].name == name
    ensures r.Some? ==> forall j :: 0 <= j < r.value ==> ls[j].name != name
    ensures r.None? ==> forall j :: 0 <= j < |ls| ==> ls[j].name != name
  {
    if |ls| == 0 then None
    else if ls[0].name == name then Some(0)
    else
      match FirstIndex(ls[1..], name)
      case None => None
      case Some(k) => Some(k + 1)
  }

  /** `find`: the first child named `name`. */
  function Find(l: Line, name: string): (r: Option<Line>)
    ensures r.Some? ==> r.value in l.subs && r.value.name == name
    ensures r.None? <==> forall j :: 0 <= j < |l.subs| ==> l.subs[j].name != name
  {
    match FirstIndex(l.subs, name)
    case None => None
    case Some(i) => Some(l.subs[i])
  }

  /** The lines named `name`, in their order. */
  function Named(ls: seq<Line>, name: string): (r: seq<Line>)
    ensures |r| <= |ls|
    ensures forall x :: x in r <==> x in ls && x.name == name
  {
    if |ls| == 0 then []
    else
      var rest := Named(ls[1..], name);
      assert forall x :: x in ls <==> x == ls[0] || x in ls[1..];
      if ls[0].name == name then [ls[0]] + rest else rest
  }

  /** Each line named `name` is kept as often as it occurs, and no other line is kept. */
  lemma {:induction false} NamedCounts(ls: seq<Line>, name: string, x: Line)
    ensures multiset(Named(ls, name))[x] == if x.name == name then multiset(ls)[x] else 0
  {
    if |ls| > 0 {
      NamedCounts(ls[1..], name, x);
      assert ls == [ls[0]] + ls[1..];
      assert multiset(ls) == multiset{ls[0]} + multiset(ls[1..]);
    }
  }

  /** `findAll`: exactly the children named `name`, in their order. */
  function FindAll(l: Line, name: string): (r: seq<Line>)
    ensures |r| <= |l.subs|
    ensures forall x :: x in r <==> x in l.subs && x.name == name
  {
    Named(l.subs, name)
  }

  /** Filtering keeps the order: it distributes over concatenation. */
  lemma {:induction false} NamedAppend(a: seq<Line>, b: seq<Line>, name: string)
    ensures Named(a + b, name) == Named(a, name) + Named(b, name)
    decreases |a|
  {
    if |a| > 0 {
      assert (a + b)[0] == a[0];
      assert (a + b)[1..] == a[1..] + b;
      NamedAppend(a[1..], b, name);
    } else {
      assert a + b == b;
    }
  }

  /** `find` comes up empty exactly when `findAll` does, and otherwise is its first element. */
  lemma {:induction false} FindIsFirstOfFindAll(l: Line, name: string)
    ensures Find(l, name).None? <==> FindAll(l, name) == []
    ensures Find(l, name).Some? ==> Find(l, name).value == FindAll(l, name)[0]
  {
    FirstOfNamed(l.subs, name);
  }

  lemma {:induction false} FirstOfNamed(ls: seq<Line>, name: string)
    ensures FirstIndex(ls, name).None? <==> Named(ls, name) == []
    ensures FirstIndex(ls, name).Some? ==> ls[FirstIndex(ls, name).value] == Named(ls, name)[0]
  {
    if |ls| > 0 && ls[0].name != name {
      FirstOfNamed(ls[1..], name);
    }
  }

  /** `get`: the info of the first child named `name`, or the default (`undefined` when absent). */
  function Get(l: Line, name: string, defaultValue: Option<string>): (r: Option<string>)
    ensures FindAll(l, name) == [] ==> r == defaultValue
    ensures FindAll(l, name) != [] ==> r == Some(FindAll(l, name)[0].info)
  {
    FindIsFirstOfFindAll(l, name);
    match Find(l, name)
    case Some(line) => Some(line.info)
    case None => defaultValue
  }

  /** Adding a child leaves earlier matches first; the new child is found only if nothing earlier is. */
  lemma FindAfterAdd(l: Line, sub: Line, name: string)
    ensures Find(Add(l, sub), name) ==
              if Find(l, name).Some? then Find(l, name)
              else if sub.name == name then Some(sub) else None
  {
    var r := Add(l, sub);
    if Find(l, name).Some? {
      var i := FirstIndex(l.subs, name).value;
      assert r.subs[i] == l.subs[i];
      assert FirstIndex(r.subs, name) == Some(i) by {
        FirstIndexOfExtension(l.subs, r.subs, name);
      }
    } else if sub.name == name {
      assert FirstIndex(r.subs, name) == Some(|l.subs|) by {
        FirstIndexOfExtension(l.subs, r.subs, name);
      }
    }
  }

  lemma {:induction false} FirstIndexOfExtension(a: seq<Line>, b: seq<Line>, name: string)
    requires |a| <= |b| && b[..|a|] == a
    ensures FirstIndex(a, name).Some? ==> FirstIndex(b, name) == FirstIndex(a, name)
    ensures FirstIndex(a, name).None? && |b| > |a| && b[|a|].name == name ==> FirstIndex(b, name) == Some(|a|)
  {
    if |a| > 0 {
      assert b[0] == a[0];
      assert b[1..][..|a| - 1] == a[1..];
      FirstIndexOfExtension(a[1..], b[1..], name);
    } else if |b| > 0 {
      assert b[0] == b[|a|];
    }
  }

  /** `"\t".repeat(n)`. */
  function Tabs(n: nat): (r: string)
    ensures |r| == n && forall i :: 0 <= i < n ==> r[i] == '\t'
  {
    if n == 0 then "" else Tabs(n - 1) + "\t"
  }

  /** `toString(level)`: the node's own line, then every child at the next level, in order. */
  function Serialize(l: Line, level: nat): (r: string)
    // at least as long as the node's own line: indentation, name, `=`, info and a line feed
    ensures |r| >= level + |l.name| + 1 + |l.info| + 1
    decreases l
  {
    Tabs(level) + l.name + "=" + l.info + "\n" + SerializeAll(l.subs, level + 1)
  }

  /** The output starts with the node's own line. */
  lemma SerializeOwnLine(l: Line, level: nat)
    ensures var own := Tabs(level) + l.name + "=" + l.info + "\n";
            |own| <= |Serialize(l, level)| && Serialize(l, level)[..|own|] == own
  {
    var own := Tabs(level) + l.name + "=" + l.info + "\n";
    assert Serialize(l, level) == own + SerializeAll(l.subs, level + 1);
  }

  /** The lines in order, each serialised at `level`, concatenated. */
  function SerializeAll(ls: seq<Line>, level: nat): (r: string)
    ensures |r| == 0 <==> |ls| == 0
    decreases ls
  {
    if |ls| == 0 then "" else SerializeAll(ls[..|ls| - 1], level) + Serialize(ls[|ls| - 1], level)
  }

  /** The method form of `toString`: the header line, then the loop appending each child. */
  method ToString(l: Line, currentLevel: nat) returns (output: string)
    ensures output == Serialize(l, currentLevel)
    decreases l
  {
    var indentation := Tabs(currentLevel);
    output := indentation + l.name + "=" + l.info + "\n";
    ghost var header := output;
    var i := 0;
    while i < |l.subs|
      invariant 0 <= i <= |l.subs|
      invariant output == header + SerializeAll(l.subs[..i], currentLevel + 1)
    {
      var sub := l.subs[i];
      var part := ToString(sub, currentLevel + 1);
      SerializeAllSnoc(l.subs, i, currentLevel + 1);
      AppendAssoc(header, SerializeAll(l.subs[..i], currentLevel + 1), part);
      output := output + part;
      i := i + 1;
    }
    assert l.subs[..i] == l.subs;
  }

  lemma SerializeAllSnoc(ls: seq<Line>, i: nat, level: nat)
    requires i < |ls|
    ensures SerializeAll(ls[..i + 1], level) == SerializeAll(ls[..i], level) + Serialize(ls[i], level)
  {
    assert ls[..i + 1][..i] == ls[..i];
  }

  lemma AppendAssoc(a: string, b: string, c: string)
    ensures (a + b) + c == a + (b + c)
  {
  }

  /** The number of line feeds in a string. */
  function Newlines(s: string): nat
  {
    if |s| == 0 then 0 else Newlines(s[..|s| - 1]) + (if s[|s| - 1] == '\n' then 1 else 0)
  }

  lemma {:induction false} NewlinesAppend(a: string, b: string)
    ensures Newlines(a + b) == Newlines(a) + Newlines(b)
    decreases |b|
  {
    if |b| > 0 {
      assert (a + b)[..|a + b| - 1] == a + b[..|b| - 1];
      NewlinesAppend(a, b[..|b| - 1]);
    } else {
      assert a + b == a;
    }
  }

  lemma {:induction false} NoNewlinesInTabs(n: nat)
    ensures Newlines(Tabs(n)) == 0
  {
    if n > 0 {
      NoNewlinesInTabs(n - 1);
      NewlinesAppend(Tabs(n - 1), "\t");
    }
  }

  /** No name or info in the subtree holds a line feed. */
  predicate SingleLine(l: Line)
    decreases l
  {
    && Newlines(l.name) == 0 && Newlines(l.info) == 0
    && forall i :: 0 <= i < |l.subs| ==> SingleLine(l.subs[i])
  }

  /** Serialisation writes exactly one line per node of the subtree. */
  lemma {:induction false} OneLinePerNode(l: Line, level: nat)
    requires SingleLine(l)
    ensures Newlines(Serialize(l, level)) == Size(l)
    decreases l, 1
  {
    var header := Tabs(level) + l.name + "=" + l.info + "\n";
    HeaderIsOneLine(level, l.name, l.info);
    NewlinesAppend(header, SerializeAll(l.subs, level + 1));
    OneLinePerNodeAll(l.subs, level + 1);
  }

  lemma HeaderIsOneLine(level: nat, name: string, info: string)
    requires Newlines(name) == 0 && Newlines(info) == 0
    ensures Newlines(Tabs(level) + name + "=" + info + "\n") == 1
  {
    NoNewlinesInTabs(level);
    var s1 := Tabs(level) + name;
    var s2 := s1 + "=";
    var s3 := s2 + info;
    NewlinesAppend(Tabs(level), name);
    NewlinesAppend(s1, "=");
    NewlinesAppend(s2, info);
    NewlinesAppend(s3, "\n");
    assert Newlines("=") == 0 by { assert "="[..0] == ""; }
    assert Newlines("\n") == 1 by { assert "\n"[..0] == ""; }
  }

  lemma {:induction false} OneLinePerNodeAll(ls: seq<Line>, level: nat)
    requires forall i :: 0 <= i < |ls| ==> SingleLine(ls[i])
    ensures Newlines(SerializeAll(ls, level)) == SizeAll(ls)
    decreases ls, 0
  {
    if |ls| > 0 {
      var last := ls[|ls| - 1];
      OneLinePerNodeAll(ls[..|ls| - 1], level);
      OneLinePerNode(last, level);
      NewlinesAppend(SerializeAll(ls[..|ls| - 1], level), Serialize(last, level));
    }
  }
}
