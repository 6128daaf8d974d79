/**
 * An LPS document: a root line (named `root`, level -1) whose subtree `parse`
 * builds from text. Each text line is trimmed; blank lines and `//` comments are
 * skipped, `}` closes the innermost open block, and any other line becomes a
 * new child of the innermost open block, opening a block itself when it ends in
 * `{`. A line's text is split into a name, an info value and `:|key#value`
 * metadata segments.
 *
 * The tree is a value; the stack of open blocks holds paths from the root, so
 * that adding a child "through" the top of the stack updates the same node the
 * tree holds.
 */
module LpsDocument {
  import opened Options
  import opened LpsText
  import opened Lines

  datatype Header = Header(name: string, info: string, metadata: map<string, string>)

  // ---------------------------------------------------------------------------
  // Metadata segments

  /**
   * What the segment `item` of a `:|` list defines: `[key, value] = item.split("#")`,
   * kept when the item is non-empty, the key is non-empty and the value exists.
   * The value is the text between the first and the second `#`.
   */
  function MetaEntry(item: string): (r: Option<(string, string)>)
    ensures r.Some? <==> Before(item, "#") != "" && Includes(item, "#")
    ensures r.Some? ==> r.value == (Before(item, "#"), Before(After(item, "#"), "#"))
  {
    if item == "" then None
    else
      var kv := Split(item, "#");
      SplitHead(item, "#");
      SplitShape(item, "#");
      if kv[0] != "" && |kv| >= 2 then Some((kv[0], kv[1])) else None
  }

  /** The pieces of a split with at least one separator: the head, then the split of the rest. */
  lemma SplitShape(s: string, sep: string)
    requires |sep| > 0
    ensures |Split(s, sep)| >= 2 <==> Includes(s, sep)
    ensures Includes(s, sep) ==> Split(s, sep)[1] == Before(After(s, sep), sep)
  {
    var r := IndexOf(s, sep);
    if r.Some? {
      var rest := s[r.value + |sep|..];
      assert After(s, sep) == rest;
      assert Split(s, sep) == [s[..r.value]] + Split(rest, sep);
      SplitHead(rest, sep);
      assert Split(s, sep)[1] == Split(rest, sep)[0];
    } else {
      assert Split(s, sep) == [s];
    }
  }

  predicate Defines(item: string, key: string)
  {
    MetaEntry(item).Some? && MetaEntry(item).value.0 == key
  }

  /** `metadata[key] = value` for what one segment defines. */
  function Apply(m: map<string, string>, item: string): (r: map<string, string>)
    // no key is removed, and only the key before the first `#` can be added or changed
    ensures m.Keys <= r.Keys
    ensures forall k :: k in r && k != Before(item, "#") ==> k in m && r[k] == m[k]
  {
    match MetaEntry(item)
    case None => m
    case Some(kv) => m[kv.0 := kv.1]
  }

  /** `Apply` in the terms of the loop that reads the segments. */
  lemma ApplyBySplit(m: map<string, string>, item: string)
    ensures Apply(m, item) ==
              if item == "" then m
              else
                var kv := Split(item, "#");
                if kv[0] != "" && |kv| >= 2 then m[kv[0] := kv[1]] else m
  {
  }

  /** The metadata of a list of segments, applied in order. */
  function Metadata(items: seq<string>): (m: map<string, string>)
    // every key is non-empty, and neither a key nor its value holds a `#`
    ensures forall key :: key in m ==> key != "" && !Includes(key, "#") && !Includes(m[key], "#")
  {
    if |items| == 0 then map[] else Apply(Metadata(items[..|items| - 1]), items[|items| - 1])
  }

  lemma MetadataSnoc(items: seq<string>, item: string)
    ensures Metadata(items + [item]) == Apply(Metadata(items), item)
  {
    assert (items + [item])[..|items|] == items;
  }

  /** A key is present exactly when some segment defines it. */
  lemma {:induction false} MetadataKeys(items: seq<string>, key: string)
    ensures key in Metadata(items) <==> exists j :: 0 <= j < |items| && Defines(items[j], key)
  {
    if |items| > 0 {
      var init, last := items[..|items| - 1], items[|items| - 1];
      MetadataKeys(init, key);
      ApplyKeys(Metadata(init), last, key);
      assert items == init + [last];
      ExistsSnoc(init, last, x => Defines(x, key));
      assert key in Metadata(items) <==> key in Metadata(init) || Defines(last, key);
    }
  }

  /** Some element of `init + [last]` satisfies `P` iff one of `init` does, or `last` does. */
  lemma ExistsSnoc<T>(init: seq<T>, last: T, P: T -> bool)
    ensures (exists j :: 0 <= j < |init + [last]| && P((init + [last])[j]))
        <==> (exists j :: 0 <= j < |init| && P(init[j])) || P(last)
  {
    var s := init + [last];
    if exists j :: 0 <= j < |init| && P(init[j]) {
      var j :| 0 <= j < |init| && P(init[j]);
      assert s[j] == init[j];
    }
    assert s[|init|] == last;
  }

  lemma ApplyKeys(m: map<string, string>, item: string, key: string)
    ensures key in Apply(m, item) <==> key in m || Defines(item, key)
  {
  }

  /** Later segments win: the value of a key is the one its last defining segment gives. */
  lemma {:induction false} MetadataLastWins(items: seq<string>, j: nat, key: string, value: string)
    requires j < |items| && MetaEntry(items[j]) == Some((key, value))
    requires forall k :: j < k < |items| ==> !Defines(items[k], key)
    ensures key in Metadata(items) && Metadata(items)[key] == value
  {
    var init := items[..|items| - 1];
    if j < |items| - 1 {
      assert init[j] == items[j];
      assert forall k :: j < k < |init| ==> init[k] == items[k];
      MetadataLastWins(init, j, key, value);
    }
  }

  // ---------------------------------------------------------------------------
  // Splitting one line into name, info and metadata

  /**
   * The split of a trimmed line (its opening brace already removed): the text
   * before the first `=` holds the name, an optional `#info` and optional
   * `:|key#value` segments; the text after it, with later `=` kept, is the
   * fallback info.
   */
  function ParseHeader(t: string): (h: Header)
    // metadata only comes from `:|` segments, and its keys are non-empty
    ensures !Includes(t, ":|") ==> h.metadata == map[]
    ensures forall key :: key in h.metadata ==> key != "" && !Includes(key, "#") && !Includes(h.metadata[key], "#")
  {
    var parts := Split(t, "=");
    SplitHead(t, "=");
    assert !Includes(t, ":|") ==> !Includes(parts[0], ":|") by {
      if !Includes(t, ":|") {
        PrefixIsFree(t, parts[0], ":|");
      }
    }
    HeaderOf(parts[0], Join(parts[1..], "="))
  }

  /** The three cases of the part before `=`: with `:|` segments, with `#` only, or neither. */
  function HeaderOf(nameAndMetaPart: string, rawInfoAfterEquals: string): (h: Header)
    ensures !Includes(nameAndMetaPart, ":|") ==> h.metadata == map[]
    ensures forall key :: key in h.metadata ==> key != "" && !Includes(key, "#") && !Includes(h.metadata[key], "#")
    // without `#` and `:|` the whole part is the name and the info is the fallback
    ensures !Includes(nameAndMetaPart, ":|") && !Includes(nameAndMetaPart, "#") ==>
              h.name == Trim(nameAndMetaPart) && h.info == rawInfoAfterEquals
  {
    if Includes(nameAndMetaPart, ":|") then
      var metaParts := Split(nameAndMetaPart, ":|");
      var ni := NameAndInfo(metaParts[0], rawInfoAfterEquals);
      Header(ni.0, ni.1, Metadata(metaParts[1..]))
    else if Includes(nameAndMetaPart, "#") then
      var ni := NameAndInfo(nameAndMetaPart, rawInfoAfterEquals);
      Header(ni.0, ni.1, map[])
    else
      Header(Trim(nameAndMetaPart), rawInfoAfterEquals, map[])
  }

  /** `name#info`: the trimmed name, and the rest rejoined with `#` unless it is empty. */
  function NameAndInfo(block: string, rawInfoAfterEquals: string): (r: (string, string))
    ensures |r.0| <= |block|
    // without `#` the block is the name and the info is the fallback
    ensures !Includes(block, "#") ==> r == (Trim(block), rawInfoAfterEquals)
  {
    var nameInfoParts := Split(block, "#");
    SplitHead(block, "#");
    SplitShape(block, "#");
    var infoFromBlock := Join(nameInfoParts[1..], "#");
    (Trim(nameInfoParts[0]), if infoFromBlock != "" then infoFromBlock else rawInfoAfterEquals)
  }

  lemma NameAndInfoByCuts(block: string, raw: string)
    ensures NameAndInfo(block, raw) ==
              (Trim(Before(block, "#")), if After(block, "#") != "" then After(block, "#") else raw)
  {
    SplitHead(block, "#");
    SplitTail(block, "#");
  }

  lemma HeaderOfByCuts(part: string, raw: string)
    ensures HeaderOf(part, raw) ==
              var ni := NameAndInfo(Before(part, ":|"), raw);
              Header(ni.0, ni.1, Metadata(Split(part, ":|")[1..]))
  {
    SplitHead(part, ":|");
    SplitShape(part, ":|");
    if !Includes(part, ":|") && !Includes(part, "#") {
      NameAndInfoByCuts(part, raw);
    }
  }

  /**
   * The three branches of the split agree with one definition by first
   * occurrences: the name is the trimmed text before the first `#` of the text
   * before the first `:|` of the text before the first `=`; the info is what
   * follows that `#`, or, when that is empty, everything after the first `=`;
   * the metadata comes from the segments after the first `:|`.
   */
  lemma HeaderByFirstOccurrences(t: string)
    ensures var part := Before(t, "=");
            var block := Before(part, ":|");
            var fromBlock := After(block, "#");
            ParseHeader(t) == Header(Trim(Before(block, "#")),
                                     if fromBlock != "" then fromBlock else After(t, "="),
                                     Metadata(Split(part, ":|")[1..]))
  {
    var part := Before(t, "=");
    SplitHead(t, "=");
    SplitTail(t, "=");
    HeaderOfByCuts(part, After(t, "="));
    NameAndInfoByCuts(Before(part, ":|"), After(t, "="));
  }

  /** A line with neither `#` nor `:|`: the trimmed text before the first `=`, and all after it. */
  lemma PlainHeader(t: string)
    requires !Includes(Before(t, "="), "#") && !Includes(Before(t, "="), ":|")
    ensures ParseHeader(t) == Header(Trim(Before(t, "=")), After(t, "="), map[])
  {
    HeaderByFirstOccurrences(t);
    SplitShape(Before(t, "="), ":|");
  }

  /** A `#` with nothing after it falls back to the text after `=`. */
  lemma EmptyHashInfoFallsBack(t: string)
    requires After(Before(Before(t, "="), ":|"), "#") == ""
    ensures ParseHeader(t).info == After(t, "=")
  {
    HeaderByFirstOccurrences(t);
  }

  /** One segment of the loop: `metadata[metaKey] = metaValue` when it has a key and a `#`. */
  method ReadEntry(metadata: map<string, string>, metaItem: string) returns (r: map<string, string>)
    ensures r == Apply(metadata, metaItem)
  {
    r := metadata;
    if metaItem != "" {
      var kv := Split(metaItem, "#");
      var metaKey := kv[0];
      if metaKey != "" && |kv| >= 2 {
        r := metadata[metaKey := kv[1]];
      }
    }
    ApplyBySplit(metadata, metaItem);
  }

  /** The loop over the segments after the first `:|`. */
  method ReadMetadata(metaParts: seq<string>) returns (metadata: map<string, string>)
    requires |metaParts| >= 1
    ensures metadata == Metadata(metaParts[1..])
  {
    metadata := map[];
    var j := 1;
    while j < |metaParts|
      invariant 1 <= j <= |metaParts|
      invariant metadata == Metadata(metaParts[1..j])
    {
      var metaItem := metaParts[j];
      assert metaParts[1..j + 1] == metaParts[1..j] + [metaItem];
      MetadataSnoc(metaParts[1..j], metaItem);
      metadata := ReadEntry(metadata, metaItem);
      j := j + 1;
    }
    assert metaParts[1..j] == metaParts[1..];
  }

  /** The method form of the split of one line. */
  method ReadHeader(trimmedLine: string) returns (h: Header)
    ensures h == ParseHeader(trimmedLine)
  {
    var parts := Split(trimmedLine, "=");
    var nameAndMetaPart := parts[0];
    var rawInfoAfterEquals := Join(parts[1..], "=");
    var block := nameAndMetaPart;
    var metadata: map<string, string> := map[];
    if Includes(nameAndMetaPart, ":|") {
      var metaParts := Split(nameAndMetaPart, ":|");
      block := metaParts[0];
      metadata := ReadMetadata(metaParts);
    } else if !Includes(nameAndMetaPart, "#") {
      h := Header(Trim(nameAndMetaPart), rawInfoAfterEquals, map[]);
      return;
    }
    var nameInfoParts := Split(block, "#");
    var infoFromBlock := Join(nameInfoParts[1..], "#");
    h := Header(Trim(nameInfoParts[0]), if infoFromBlock != "" then infoFromBlock else rawInfoAfterEquals, metadata);
  }

  // ---------------------------------------------------------------------------
  // Classifying a text line

  datatype Kind = Skip | Close | Entry(header: Header, opens: bool)

  function Classify(textLine: string): (k: Kind)
    ensures k == Skip <==> Trim(textLine) == "" || StartsWith(Trim(textLine), "//")
    ensures k == Close <==> Trim(textLine) == "}"
    ensures k.Entry? ==> k.opens == EndsWith(Trim(textLine), "{")
  {
    var trimmedLine := Trim(textLine);
    assert StartsWith(trimmedLine, "///") ==> trimmedLine[..2] == trimmedLine[..3][..2];
    if trimmedLine == "" || StartsWith(trimmedLine, "//") || StartsWith(trimmedLine, "///") then Skip
    else if trimmedLine == "}" then Close
    else EntryOf(trimmedLine)
  }

  /** A content line: a trailing `{` opens a block and is not part of the header. */
  function EntryOf(trimmedLine: string): (k: Kind)
    ensures k.Entry? && k.opens == EndsWith(trimmedLine, "{")
  {
    if EndsWith(trimmedLine, "{") then Entry(ParseHeader(trimmedLine[..|trimmedLine| - 1]), true)
    else Entry(ParseHeader(trimmedLine), false)
  }

  /** The node a header line becomes: `new Line(name, info)` with the metadata set. */
  function NodeOf(h: Header): (l: Line)
    ensures l.subs == [] && l.level == 0 && Size(l) == 1
    ensures (l.name, l.info, l.metadata) == (h.name, h.info, h.metadata)
  {
    NewLine(Some(h.name), Some(h.info), None).(metadata := h.metadata)
  }

  // ---------------------------------------------------------------------------
  // Paths into the tree

  type Path = seq<nat>

  predicate ValidPath(l: Line, p: Path)
    decreases |p|
  {
    |p| == 0 || (p[0] < |l.subs| && ValidPath(l.subs[p[0]], p[1..]))
  }

  function NodeAt(l: Line, p: Path): Line
    requires ValidPath(l, p)
    decreases |p|
  {
    if |p| == 0 then l else NodeAt(l.subs[p[0]], p[1..])
  }

  lemma SizeAllUpdate(ls: seq<Line>, i: nat, x: Line)
    requires i < |ls|
    ensures SizeAll(ls[i := x]) + Size(ls[i]) == SizeAll(ls) + Size(x)
    decreases |ls|
  {
    var u := ls[i := x];
    if i < |ls| - 1 {
      assert u[..|u| - 1] == ls[..|ls| - 1][i := x];
      SizeAllUpdate(ls[..|ls| - 1], i, x);
    } else {
      assert u[..|u| - 1] == ls[..|ls| - 1];
    }
  }

  /** `add` on the node at path `p`: that node gains the child last, and the tree one subtree. */
  function AddAt(l: Line, p: Path, sub: Line): (r: Line)
    requires ValidPath(l, p)
    ensures ValidPath(r, p) && NodeAt(r, p) == Add(NodeAt(l, p), sub)
    ensures Size(r) == Size(l) + Size(sub)
    ensures r.name == l.name && r.info == l.info && r.level == l.level && r.metadata == l.metadata
    decreases |p|
  {
    if |p| == 0 then Add(l, sub)
    else
      var child := AddAt(l.subs[p[0]], p[1..], sub);
      SizeAllUpdate(l.subs, p[0], child);
      l.(subs := l.subs[p[0] := child])
  }

  /** Adding below `p` keeps every path that was valid valid. */
  lemma {:induction false} AddAtKeepsPaths(l: Line, p: Path, sub: Line, q: Path)
    requires ValidPath(l, p) && ValidPath(l, q)
    ensures ValidPath(AddAt(l, p, sub), q)
    decreases |q|
  {
    if |q| > 0 && |p| > 0 && p[0] == q[0] {
      AddAtKeepsPaths(l.subs[p[0]], p[1..], sub, q[1..]);
    }
  }

  /** `q` leads to `p` or to one of its ancestors. */
  predicate IsPrefix(q: Path, p: Path)
  {
    |q| <= |p| && q == p[..|q|]
  }

  /** Adding below `p` leaves every node off the way to `p` as it was. */
  lemma {:induction false} AddAtFrame(l: Line, p: Path, sub: Line, q: Path)
    requires ValidPath(l, p) && ValidPath(l, q) && !IsPrefix(q, p)
    ensures ValidPath(AddAt(l, p, sub), q) && NodeAt(AddAt(l, p, sub), q) == NodeAt(l, q)
    decreases |q|
  {
    AddAtKeepsPaths(l, p, sub, q);
    if |p| > 0 && p[0] == q[0] {
      assert !IsPrefix(q[1..], p[1..]);
      AddAtFrame(l.subs[p[0]], p[1..], sub, q[1..]);
    }
  }

  /**
   * The nodes on the way to `p`, `p`'s own node included, keep their name,
   * info, level and metadata; those strictly above it keep their number of
   * children.
   */
  lemma {:induction false} AddAtOnPath(l: Line, p: Path, sub: Line, q: Path)
    requires ValidPath(l, p) && IsPrefix(q, p)
    ensures ValidPath(l, q) && ValidPath(AddAt(l, p, sub), q)
    ensures var before, after := NodeAt(l, q), NodeAt(AddAt(l, p, sub), q);
            && after.(subs := before.subs) == before
            && (|q| < |p| ==> |after.subs| == |before.subs|)
    decreases |q|
  {
    if |q| > 0 {
      assert q[1..] == p[1..][..|q| - 1];
      AddAtOnPath(l.subs[p[0]], p[1..], sub, q[1..]);
    } else {
      assert ValidPath(l, q) && ValidPath(AddAt(l, p, sub), q);
    }
  }

  /** A path extended by one child position. */
  lemma {:induction false} NodeAtChild(l: Line, p: Path, i: nat)
    requires ValidPath(l, p) && i < |NodeAt(l, p).subs|
    ensures ValidPath(l, p + [i]) && NodeAt(l, p + [i]) == NodeAt(l, p).subs[i]
    decreases |p|
  {
    if |p| > 0 {
      assert (p + [i])[1..] == p[1..] + [i];
      NodeAtChild(l.subs[p[0]], p[1..], i);
    }
  }

  // ---------------------------------------------------------------------------
  // The parser as a function of the lines

  /** The tree built so far and the stack of open blocks, innermost last. */
  datatype Cursor = Cursor(root: Line, stack: seq<Path>)

  predicate Wf(c: Cursor)
  {
    forall k :: 0 <= k < |c.stack| ==> ValidPath(c.root, c.stack[k])
  }

  /** `parentStack.pop()`, which leaves an empty stack empty. */
  function Pop(stack: seq<Path>): (r: seq<Path>)
    ensures |r| == if |stack| == 0 then 0 else |stack| - 1
    ensures r == stack[..|r|]
  {
    if |stack| == 0 then [] else stack[..|stack| - 1]
  }

  /**
   * `currentParent.add(newLine)` with the current parent at the top of the
   * stack, then, for a line opening a block, `parentStack.push(newLine)`.
   */
  function AddLine(c: Cursor, node: Line, opens: bool): (r: Cursor)
    requires Wf(c) && |c.stack| > 0
    ensures Wf(r)
    ensures var top := c.stack[|c.stack| - 1];
            && ValidPath(r.root, top)
            && NodeAt(r.root, top) == Add(NodeAt(c.root, top), node)
            && Size(r.root) == Size(c.root) + Size(node)
    ensures |r.stack| == |c.stack| + (if opens then 1 else 0)
    ensures r.stack[..|c.stack|] == c.stack
    ensures opens ==> NodeAt(r.root, r.stack[|r.stack| - 1]) == node
    // every node off the way to the parent is unchanged
    ensures forall q :: ValidPath(c.root, q) && !IsPrefix(q, c.stack[|c.stack| - 1]) ==>
              ValidPath(r.root, q) && NodeAt(r.root, q) == NodeAt(c.root, q)
    // the parent and its ancestors keep their own fields
    ensures forall q :: ValidPath(c.root, q) && IsPrefix(q, c.stack[|c.stack| - 1]) ==>
              ValidPath(r.root, q) && NodeAt(r.root, q).(subs := NodeAt(c.root, q).subs) == NodeAt(c.root, q)
  {
    var top: Path := c.stack[|c.stack| - 1];
    var position: nat := |NodeAt(c.root, top).subs|;
    var root := AddAt(c.root, top, node);
    forall q | ValidPath(c.root, q)
      ensures ValidPath(root, q)
      ensures !IsPrefix(q, top) ==> NodeAt(root, q) == NodeAt(c.root, q)
      ensures IsPrefix(q, top) ==> NodeAt(root, q).(subs := NodeAt(c.root, q).subs) == NodeAt(c.root, q)
    {
      if IsPrefix(q, top) {
        AddAtOnPath(c.root, top, node, q);
      } else {
        AddAtFrame(c.root, top, node, q);
      }
    }
    assert forall k :: 0 <= k < |c.stack| ==> ValidPath(root, c.stack[k]) by {
      forall k | 0 <= k < |c.stack| ensures ValidPath(root, c.stack[k]) {
        AddAtKeepsPaths(c.root, top, node, c.stack[k]);
      }
    }
    if opens then
      NodeAtChild(root, top, position);
      var child: Path := top + [position];
      var stack: seq<Path> := c.stack + [child];
      assert stack[..|c.stack|] == c.stack;
      Cursor(root, stack)
    else
      Cursor(root, c.stack)
  }

  /**
   * One text line. `None` is the `TypeError` of adding to the missing parent
   * after a `}` too many has emptied the stack.
   */
  function Step(c: Cursor, textLine: string): (r: Option<Cursor>)
    requires Wf(c)
    ensures r.Some? ==> Wf(r.value)
    ensures Classify(textLine) == Skip ==> r == Some(c)
    ensures Classify(textLine) == Close ==> r == Some(c.(stack := Pop(c.stack)))
    ensures Classify(textLine).Entry? ==> (r.None? <==> c.stack == [])
    ensures Classify(textLine).Entry? && r.Some? ==>
              r.value == AddLine(c, NodeOf(Classify(textLine).header), Classify(textLine).opens)
  {
    match Classify(textLine)
    case Skip => Some(c)
    case Close => Some(c.(stack := Pop(c.stack)))
    case Entry(header, opens) =>
      if |c.stack| == 0 then None else Some(AddLine(c, NodeOf(header), opens))
  }

  /** All the lines in order; the flag is false when a line throws, and the tree is then as it was. */
  function Run(c: Cursor, lines: seq<string>): (r: (Cursor, bool))
    requires Wf(c)
    ensures Wf(r.0)
    decreases |lines|
  {
    if |lines| == 0 then (c, true)
    else
      match Step(c, lines[0])
      case None => (c, false)
      case Some(next) => Run(next, lines[1..])
  }

  /** Whether the lines can be parsed with `depth` blocks open, by their classification alone. */
  predicate Survives(depth: nat, lines: seq<string>)
    decreases |lines|
  {
    if |lines| == 0 then true
    else
      match Classify(lines[0])
      case Skip => Survives(depth, lines[1..])
      case Close => Survives(if depth == 0 then 0 else depth - 1, lines[1..])
      case Entry(_, opens) => depth > 0 && Survives(if opens then depth + 1 else depth, lines[1..])
  }

  /** A parse fails exactly when a `}` too many is later followed by a content line. */
  lemma {:induction false} RunSucceedsIffSurvives(c: Cursor, lines: seq<string>)
    requires Wf(c)
    ensures Run(c, lines).1 <==> Survives(|c.stack|, lines)
    decreases |lines|
  {
    if |lines| > 0 {
      var k := Classify(lines[0]);
      match Step(c, lines[0])
      case None =>
        assert k.Entry? && |c.stack| == 0;
      case Some(next) =>
        RunSucceedsIffSurvives(next, lines[1..]);
        if k.Entry? {
          assert |next.stack| == if k.opens then |c.stack| + 1 else |c.stack|;
        }
    }
  }

  /** Without any `}` line, nothing can empty the stack, so the parse never fails. */
  lemma {:induction false} NoCloseNeverFails(depth: nat, lines: seq<string>)
    requires depth > 0
    requires forall i :: 0 <= i < |lines| ==> Classify(lines[i]) != Close
    ensures Survives(depth, lines)
    decreases |lines|
  {
    if |lines| > 0 {
      assert Classify(lines[0]) != Close;
      assert forall i :: 0 <= i < |lines| - 1 ==> lines[1..][i] == lines[i + 1];
      match Classify(lines[0])
      case Skip => NoCloseNeverFails(depth, lines[1..]);
      case Entry(_, opens) => NoCloseNeverFails(if opens then depth + 1 else depth, lines[1..]);
    }
  }

  /** The number of lines that become nodes. */
  function Entries(lines: seq<string>): nat
  {
    if |lines| == 0 then 0 else (if Classify(lines[0]).Entry? then 1 else 0) + Entries(lines[1..])
  }

  /** A successful parse adds exactly one node per content line. */
  lemma {:induction false} OneNodePerEntry(c: Cursor, lines: seq<string>)
    requires Wf(c) && Run(c, lines).1
    ensures Size(Run(c, lines).0.root) == Size(c.root) + Entries(lines)
    decreases |lines|
  {
    if |lines| > 0 {
      match Step(c, lines[0])
      case None =>
      case Some(next) => OneNodePerEntry(next, lines[1..]);
    }
  }

  // ---------------------------------------------------------------------------
  // Indentation levels

  const SpacesPerLevel: nat := 4

  /** The counting loop of `_calculateLevel`, from a given level and space count. */
  function Scan(s: string, level: nat, spaceCount: nat): (r: nat)
    ensures level <= r <= level + |s|
    decreases |s|
  {
    if |s| == 0 then level
    else if s[0] == '\t' then Scan(s[1..], level + 1, 0)
    else if s[0] == ' ' then
      if spaceCount + 1 >= SpacesPerLevel then Scan(s[1..], level + 1, 0)
      else Scan(s[1..], level, spaceCount + 1)
    else level
  }

  /** The indentation level of a text line; it never exceeds the line's length. */
  function Level(s: string): (r: nat)
    ensures r <= |s|
  {
    Scan(s, 0, 0)
  }

  predicate Blank(s: string)
  {
    forall i :: 0 <= i < |s| ==> s[i] == '\t' || s[i] == ' '
  }

  function Spaces(n: nat): (r: string)
    ensures |r| == n && Blank(r)
  {
    if n == 0 then "" else Spaces(n - 1) + " "
  }

  lemma {:induction false} ScanShift(s: string, level: nat, spaceCount: nat)
    ensures Scan(s, level, spaceCount) == level + Scan(s, 0, spaceCount)
    decreases |s|
  {
    if |s| > 0 {
      if s[0] == '\t' {
        ScanShift(s[1..], level + 1, 0);
        ScanShift(s[1..], 1, 0);
      } else if s[0] == ' ' {
        if spaceCount + 1 >= SpacesPerLevel {
          ScanShift(s[1..], level + 1, 0);
          ScanShift(s[1..], 1, 0);
        } else {
          ScanShift(s[1..], level, spaceCount + 1);
        }
      }
    }
  }

  /** Counting stops at the first character that is neither a tab nor a space. */
  lemma {:induction false} LevelStopsAtText(w: string, c: char, rest: string, level: nat, spaceCount: nat)
    requires Blank(w) && c != '\t' && c != ' '
    ensures Scan(w + [c] + rest, level, spaceCount) == Scan(w, level, spaceCount)
    decreases |w|
  {
    var s := w + [c] + rest;
    if |w| > 0 {
      assert s[0] == w[0];
      assert s[1..] == w[1..] + [c] + rest;
      if w[0] == '\t' {
        LevelStopsAtText(w[1..], c, rest, level + 1, 0);
      } else if spaceCount + 1 >= SpacesPerLevel {
        LevelStopsAtText(w[1..], c, rest, level + 1, 0);
      } else {
        LevelStopsAtText(w[1..], c, rest, level, spaceCount + 1);
      }
    } else {
      assert s[0] == c;
    }
  }

  /** A tab adds one level and restarts the space count. */
  lemma {:induction false} TabAddsALevel(w: string, rest: string, level: nat, spaceCount: nat)
    requires Blank(w)
    ensures Scan(w + "\t" + rest, level, spaceCount) == Scan(w, level, spaceCount) + 1 + Level(rest)
    decreases |w|
  {
    var s := w + "\t" + rest;
    if |w| > 0 {
      assert s[0] == w[0];
      assert s[1..] == w[1..] + "\t" + rest;
      if w[0] == '\t' {
        TabAddsALevel(w[1..], rest, level + 1, 0);
      } else if spaceCount + 1 >= SpacesPerLevel {
        TabAddsALevel(w[1..], rest, level + 1, 0);
      } else {
        TabAddsALevel(w[1..], rest, level, spaceCount + 1);
      }
    } else {
      assert s[0] == '\t' && s[1..] == rest;
      ScanShift(rest, level + 1, 0);
    }
  }

  /** Every four consecutive spaces add one level. */
  lemma {:induction false} SpacesAddLevels(n: nat, level: nat, spaceCount: nat)
    requires spaceCount < SpacesPerLevel
    ensures Scan(Spaces(n), level, spaceCount) == level + (spaceCount + n) / SpacesPerLevel
    decreases n
  {
    if n > 0 {
      var s := Spaces(n);
      assert s[0] == ' ' by {
        SpacesStartWithSpace(n);
      }
      SpacesTail(n);
      if spaceCount + 1 >= SpacesPerLevel {
        SpacesAddLevels(n - 1, level + 1, 0);
      } else {
        SpacesAddLevels(n - 1, level, spaceCount + 1);
      }
    }
  }

  lemma SpacesStartWithSpace(n: nat)
    requires n > 0
    ensures Spaces(n)[0] == ' '
  {
  }

  lemma {:induction false} SpacesTail(n: nat)
    requires n > 0
    ensures Spaces(n)[1..] == Spaces(n - 1)
    decreases n
  {
    if n > 1 {
      SpacesTail(n - 1);
      assert Spaces(n)[1..] == Spaces(n - 1)[1..] + " ";
    }
  }

  /** Running the lines is stepping the first one, then running the rest. */
  lemma RunUnfold(c: Cursor, lines: seq<string>, i: nat)
    requires Wf(c) && i < |lines|
    ensures Step(c, lines[i]).None? ==> Run(c, lines[i..]) == (c, false)
    ensures Step(c, lines[i]).Some? ==> Run(c, lines[i..]) == Run(Step(c, lines[i]).value, lines[i + 1..])
  {
    assert lines[i..][0] == lines[i];
    assert lines[i..][1..] == lines[i + 1..];
  }

  /**
   * The body of the `parse` loop for one text line: skip, close the innermost
   * block, or split the line and add it to the innermost block. `None` when
   * there is no block to add to.
   */
  method ParseLine(c: Cursor, textLine: string) returns (r: Option<Cursor>)
    requires Wf(c)
    ensures r == Step(c, textLine)
  {
    var trimmedLine := Trim(textLine);
    if trimmedLine == "" || StartsWith(trimmedLine, "//") || StartsWith(trimmedLine, "///") {
      return Some(c);
    }
    if trimmedLine == "}" {
      var parentStack: seq<Path> := c.stack;
      if |parentStack| > 0 {
        parentStack := parentStack[..|parentStack| - 1];
      }
      return Some(c.(stack := parentStack));
    }
    r := ParseEntry(c, trimmedLine);
  }

  /** A content line: split it, then add it to the innermost block, and open it when it ends in `{`. */
  method ParseEntry(c: Cursor, trimmedLine: string) returns (r: Option<Cursor>)
    requires Wf(c)
    ensures var k := EntryOf(trimmedLine);
            r == if c.stack == [] then None else Some(AddLine(c, NodeOf(k.header), k.opens))
  {
    var isBlock := false;
    var text := trimmedLine;
    if EndsWith(text, "{") {
      isBlock := true;
      text := text[..|text| - 1];
    }
    var header := ReadHeader(text);
    var newLine := NewLine(Some(header.name), Some(header.info), None).(metadata := header.metadata);
    assert EntryOf(trimmedLine) == Entry(header, isBlock);
    if |c.stack| == 0 {
      // there is no current parent: `add` throws
      return None;
    }
    var currentParent: Path := c.stack[|c.stack| - 1];
    var position: nat := |NodeAt(c.root, currentParent).subs|;
    var root := AddAt(c.root, currentParent, newLine);
    var parentStack: seq<Path> := c.stack;
    if isBlock {
      var child: Path := currentParent + [position];
      parentStack := parentStack + [child];
    }
    assert Cursor(root, parentStack) == AddLine(c, newLine, isBlock);
    r := Some(Cursor(root, parentStack));
  }

  /** A fresh cursor at the root is well formed. */
  lemma StartIsWf(root: Line)
    ensures Wf(Cursor(root, [[]]))
  {
    assert ValidPath(root, []);
  }

  /**
   * The loop of `parse` over the text lines, from the root alone on the
   * stack. It stops at the first line that throws; `cursor.root` then holds the
   * lines added before it.
   */
  method ParseLines(start: Cursor, textLines: seq<string>) returns (cursor: Cursor, ok: bool)
    requires Wf(start)
    ensures (cursor, ok) == Run(start, textLines)
  {
    cursor := start;
    assert textLines[0..] == textLines;
    var i := 0;
    while i < |textLines|
      invariant 0 <= i <= |textLines|
      invariant Wf(cursor)
      invariant Run(cursor, textLines[i..]) == Run(start, textLines)
    {
      RunUnfold(cursor, textLines, i);
      var next := ParseLine(cursor, textLines[i]);
      if next.None? {
        return cursor, false;
      }
      cursor := next.value;
      i := i + 1;
    }
    assert textLines[i..] == [];
    ok := true;
  }

  // ---------------------------------------------------------------------------
  // The document

  class LpsDocument {
    /** A flat list of lines; `parse` never fills it. */
    var lines: seq<Line>
    var root: Line

    constructor ()
      ensures lines == []
      ensures root == NewLine(Some("root"), Some(""), Some(-1))
    {
      lines := [];
      root := NewLine(Some("root"), Some(""), Some(-1));
    }

    /**
     * `parse`: the lines of `lpsContent` go into the tree under the current
     * root. `ok` is false when a line throws; the lines before it stay added.
     */
    method Parse(lpsContent: string) returns (ok: bool)
      modifies this
      ensures var r := Run(Cursor(old(root), [[]]), SplitLines(lpsContent));
              root == r.0.root && ok == r.1
      ensures lines == old(lines)
    {
      var textLines := SplitLines(lpsContent);
      var start := Cursor(root, [[]]);
      StartIsWf(root);
      var cursor;
      cursor, ok := ParseLines(start, textLines);
      root := cursor.root;
    }

    /** `_calculateLevel`: leading tabs, and runs of four spaces, counted up to the first other character. */
    method CalculateLevel(textLine: string) returns (level: nat)
      ensures level == Level(textLine)
    {
      level := 0;
      var spaceCount := 0;
      var i := 0;
      while i < |textLine|
        invariant 0 <= i <= |textLine|
        invariant spaceCount < SpacesPerLevel
        invariant Scan(textLine[i..], level, spaceCount) == Level(textLine)
      {
        var ch := textLine[i];
        assert textLine[i..][1..] == textLine[i + 1..];
        if ch == '\t' {
          level := level + 1;
          spaceCount := 0;
        } else if ch == ' ' {
          spaceCount := spaceCount + 1;
          if spaceCount >= SpacesPerLevel {
            level := level + 1;
            spaceCount := 0;
          }
        } else {
          break;
        }
        i := i + 1;
      }
    }

    /** `find`: the root's first top-level line with that name. */
    function Find(name: string): (r: Option<Line>)
      reads this
      ensures r == Lines.Find(root, name)
      ensures r.None? <==> forall j :: 0 <= j < |root.subs| ==> root.subs[j].name != name
    {
      Lines.Find(root, name)
    }

    /** `findAll`: the root's top-level lines with that name, in order. */
    function FindAll(name: string): (r: seq<Line>)
      reads this
      ensures r == Lines.FindAll(root, name)
      ensures forall x :: x in r <==> x in root.subs && x.name == name
    {
      Lines.FindAll(root, name)
    }

    /** `get`: the info of the root's first top-level line with that name, or the default. */
    function Get(name: string, defaultValue: Option<string>): (r: Option<string>)
      reads this
      ensures r == Lines.Get(root, name, defaultValue)
      ensures FindAll(name) == [] ==> r == defaultValue
      ensures FindAll(name) != [] ==> r == Some(FindAll(name)[0].info)
    {
      Lines.Get(root, name, defaultValue)
    }

    /** `toString`: each top-level line serialised at level 0, concatenated; the root's own line is not written. */
    function ToString(): (r: string)
      reads this
      ensures r == SerializeAll(root.subs, 0)
      ensures (forall i :: 0 <= i < |root.subs| ==> SingleLine(root.subs[i])) ==>
                Newlines(r) == Size(root) - 1
    {
      var parts := seq(|root.subs|, i requires 0 <= i < |root.subs| reads this => Serialize(root.subs[i], 0));
      ConcatSerialized(root.subs, parts);
      if forall i :: 0 <= i < |root.subs| ==> SingleLine(root.subs[i]) then
        OneLinePerNodeAll(root.subs, 0);
        Join(parts, "")
      else
        Join(parts, "")
    }
  }

  /** Joining the serialised lines with no separator is serialising them together. */
  lemma {:induction false} ConcatSerialized(ls: seq<Line>, parts: seq<string>)
    requires |parts| == |ls| && forall i :: 0 <= i < |ls| ==> parts[i] == Serialize(ls[i], 0)
    ensures Join(parts, "") == SerializeAll(ls, 0)
    decreases |ls|
  {
    if |ls| > 0 {
      var n := |ls| - 1;
      forall i | 0 <= i < n
        ensures parts[..n][i] == Serialize(ls[..n][i], 0)
      {
        assert parts[..n][i] == parts[i] && ls[..n][i] == ls[i];
      }
      ConcatSerialized(ls[..n], parts[..n]);
      JoinSnoc(parts[..n], parts[n]);
      SnocOfInit(parts);
    }
  }

  lemma SnocOfInit<T>(s: seq<T>)
    requires |s| > 0
    ensures s[..|s| - 1] + [s[|s| - 1]] == s
  {
  }

  lemma {:induction false} JoinSnoc(parts: seq<string>, last: string)
    ensures Join(parts + [last], "") == Join(parts, "") + last
    decreases |parts|
  {
    if |parts| == 0 {
      assert parts + [last] == [last];
    } else if |parts| == 1 {
      assert (parts + [last])[1..] == [last];
    } else {
      assert (parts + [last])[1..] == parts[1..] + [last];
      JoinSnoc(parts[1..], last);
      assert Join(parts, "") == parts[0] + "" + Join(parts[1..], "");
      AppendAssoc(parts[0] + "", Join(parts[1..], ""), last);
    }
  }
}
