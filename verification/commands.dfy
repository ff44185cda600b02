/**
 * The shell commands that make a node transmit or leave the session:
 * argument splitting, message-text reconstruction, node validation and node
 * removal.
 */
module Commands {
  import opened Wrappers
  import opened Mesh
  import opened Decimal
  import opened Addressing
  import opened Seqs

  /**
   * The ASCII characters Python's argument-less `str.split()` separates on:
   * tab, line feed, vertical tab, form feed, carriage return, the file, group,
   * record and unit separators 0x1C-0x1F, and space.
   */
  predicate IsSpace(c: char)
  {
    c == ' ' || (0x09 <= c as int <= 0x0D) || (0x1C <= c as int <= 0x1F)
  }

  /** A word as `split()` produces it: non-empty, no blanks. */
  predicate IsWord(w: string)
  {
    |w| > 0 && forall k :: 0 <= k < |w| ==> !IsSpace(w[k])
  }

  /** Number of leading blanks. */
  function SpaceRun(s: string): (k: nat)
    ensures k <= |s|
    ensures forall j :: 0 <= j < k ==> IsSpace(s[j])
    ensures k < |s| ==> !IsSpace(s[k])
  {
    if |s| == 0 || !IsSpace(s[0]) then 0 else 1 + SpaceRun(s[1..])
  }

  /** Number of leading non-blanks. */
  function WordRun(s: string): (k: nat)
    ensures k <= |s|
    ensures forall j :: 0 <= j < k ==> !IsSpace(s[j])
    ensures k < |s| ==> IsSpace(s[k])
  {
    if |s| == 0 || IsSpace(s[0]) then 0 else 1 + WordRun(s[1..])
  }

  /** A run of blanks, possibly empty. */
  predicate Blank(g: string)
  {
    forall k :: 0 <= k < |g| ==> IsSpace(g[k])
  }

  /** `gaps[0] + ws[0] + gaps[1] + ... + ws[n-1] + gaps[n]`. */
  function Spaced(gaps: seq<string>, ws: seq<string>): string
    requires |gaps| == |ws| + 1
    decreases |ws|
  {
    if |ws| == 0 then gaps[0] else gaps[0] + ws[0] + Spaced(gaps[1..], ws[1..])
  }

  /**
   * `s` is the words `ws` laid out between runs of blanks, with at least one
   * blank between two consecutive words (the ends may have none).
   */
  predicate Layout(s: string, gaps: seq<string>, ws: seq<string>)
  {
    && |gaps| == |ws| + 1
    && (forall i :: 0 <= i < |gaps| ==> Blank(gaps[i]))
    && (forall i :: 0 < i < |ws| ==> |gaps[i]| > 0)
    && s == Spaced(gaps, ws)
  }

  /** Python's `line.split()`: the maximal runs of non-blank characters, in order. */
  function Split(s: string): (ws: seq<string>)
    ensures forall i :: 0 <= i < |ws| ==> IsWord(ws[i])
    decreases |s|
  {
    var t := s[SpaceRun(s)..];
    if |t| == 0 then []
    else
      var w := WordRun(t);
      [t[..w]] + Split(t[w..])
  }

  /** The line is exactly the words `split()` returns, separated by blanks. */
  lemma {:induction false} SplitLayout(s: string)
    ensures exists gaps :: Layout(s, gaps, Split(s))
    decreases |s|
  {
    var sp := SpaceRun(s);
    var t := s[sp..];
    if |t| == 0 {
      assert Split(s) == [] && s == s[..sp];
      assert Layout(s, [s], []);
    } else {
      var w := WordRun(t);
      assert Split(s) == [t[..w]] + Split(t[w..]);
      SplitLayout(t[w..]);
      LayoutCons(s, sp, w, Split(t[w..]));
    }
  }

  /** In a line laid out as words that starts with a blank, the first gap is not empty. */
  lemma FirstGapNonEmpty(u: string, g: seq<string>, rest: seq<string>)
    requires Layout(u, g, rest) && |rest| > 0 && IsWord(rest[0])
    requires |u| > 0 && IsSpace(u[0])
    ensures |g[0]| > 0
  {
    assert u == g[0] + rest[0] + Spaced(g[1..], rest[1..]);
  }

  /** Prepending blanks and a word to a laid-out line lays out one more word. */
  lemma LayoutPrepend(pre: string, word: string, u: string, g: seq<string>, rest: seq<string>)
    requires Blank(pre) && Layout(u, g, rest)
    requires |rest| > 0 ==> |g[0]| > 0
    ensures Layout(pre + word + u, [pre] + g, [word] + rest)
  {
    var gaps, ws := [pre] + g, [word] + rest;
    assert gaps[1..] == g && ws[1..] == rest;
    assert forall i :: 1 <= i < |gaps| ==> gaps[i] == g[i - 1];
  }

  /** A leading blank run, then a word, then a line laid out as `rest`. */
  lemma LayoutCons(s: string, sp: nat, w: nat, rest: seq<string>)
    requires sp == SpaceRun(s) && sp < |s|
    requires w == WordRun(s[sp..])
    requires forall i :: 0 <= i < |rest| ==> IsWord(rest[i])
    requires exists g :: Layout(s[sp..][w..], g, rest)
    ensures exists gaps :: Layout(s, gaps, [s[sp..][..w]] + rest)
  {
    var t := s[sp..];
    var u := t[w..];
    var g :| Layout(u, g, rest);
    if |rest| > 0 {
      FirstGapNonEmpty(u, g, rest);
    }
    LayoutPrepend(s[..sp], t[..w], u, g, rest);
    CutTwice(s, sp, w);
  }

  lemma CutTwice(s: string, sp: nat, w: nat)
    requires sp <= |s| && w <= |s| - sp
    ensures s == s[..sp] + s[sp..][..w] + s[sp..][w..]
  {
    assert s[sp..] == s[sp..][..w] + s[sp..][w..];
  }

  /** Conversely, any layout of a line into words is the one `split()` finds. */
  lemma {:induction false} LayoutIsSplit(s: string, g: seq<string>, ws: seq<string>)
    requires Layout(s, g, ws)
    requires forall i :: 0 <= i < |ws| ==> IsWord(ws[i])
    ensures Split(s) == ws
    decreases |ws|
  {
    if |ws| == 0 {
      SpaceRunOfBlank(s, "");
      assert s + "" == s;
    } else {
      var u := Spaced(g[1..], ws[1..]);
      assert s == g[0] + ws[0] + u;
      LayoutTail(u, g, ws);
      SplitStep(g[0], ws[0], u);
      LayoutIsSplit(u, g[1..], ws[1..]);
    }
  }

  /** Blanks, then a word, then a blank or nothing: `split()` takes that word first. */
  lemma SplitStep(pre: string, word: string, u: string)
    requires Blank(pre) && IsWord(word)
    requires |u| == 0 || IsSpace(u[0])
    ensures Split(pre + word + u) == [word] + Split(u)
  {
    var s := pre + word + u;
    assert s == pre + (word + u);
    assert (word + u)[0] == word[0];
    SpaceRunOfBlank(pre, word + u);
    assert s[|pre|..] == word + u;
    WordRunOfWord(word, u);
    assert (word + u)[..|word|] == word && (word + u)[|word|..] == u;
  }

  /** The rest of a layout after its first gap and word: still a layout, starting with a blank if not empty. */
  lemma LayoutTail(u: string, g: seq<string>, ws: seq<string>)
    requires |ws| > 0 && |g| == |ws| + 1
    requires u == Spaced(g[1..], ws[1..]) && Layout(g[0] + ws[0] + u, g, ws)
    ensures Layout(u, g[1..], ws[1..])
    ensures |u| == 0 || IsSpace(u[0])
  {
    assert forall i :: 0 < i < |ws| - 1 ==> g[1..][i] == g[i + 1];
    if |ws| > 1 {
      assert u == g[1] + (ws[1] + Spaced(g[2..], ws[2..]));
      assert |g[1]| > 0 && Blank(g[1]);
      assert u[0] == g[1][0];
    } else {
      assert u == g[1];
      assert Blank(g[1]);
    }
  }

  lemma {:induction false} SpaceRunOfBlank(g: string, rest: string)
    requires Blank(g)
    requires |rest| == 0 || !IsSpace(rest[0])
    ensures SpaceRun(g + rest) == |g|
    decreases |g|
  {
    var s := g + rest;
    if |g| > 0 {
      assert s[1..] == g[1..] + rest;
      SpaceRunOfBlank(g[1..], rest);
    } else {
      assert s == rest;
    }
  }

  /** Python's `sep.join(ws)`. */
  function Join(ws: seq<string>, sep: string): string
  {
    if |ws| == 0 then "" else if |ws| == 1 then ws[0] else ws[0] + sep + Join(ws[1..], sep)
  }

  /**
   * The message text of a command: the arguments from `start` on, each
   * followed by a blank except the last, built the way the shell does it.
   */
  method TextFrom(args: seq<string>, start: nat) returns (txt: string)
    requires start < |args|
    ensures txt == Join(args[start..], " ")
  {
    txt := "";
    var i := start;
    while i < |args| - 1
      invariant start <= i <= |args| - 1
      invariant txt + Join(args[i..], " ") == Join(args[start..], " ")
    {
      assert args[i..][1..] == args[i + 1..];
      txt := txt + args[i] + " ";
      i := i + 1;
    }
    assert args[i..] == [args[|args| - 1]];
    txt := txt + args[|args| - 1];
  }

  lemma SplitSkipsLeadingSpace(s: string)
    requires |s| > 0 && IsSpace(s[0])
    ensures Split(s) == Split(s[1..])
  {
    assert s[SpaceRun(s)..] == s[1..][SpaceRun(s[1..])..];
  }

  /** Splitting words joined by single blanks gives the words back. */
  lemma {:induction false} SplitJoin(ws: seq<string>)
    requires forall i :: 0 <= i < |ws| ==> IsWord(ws[i])
    ensures Split(Join(ws, " ")) == ws
    decreases |ws|
  {
    if |ws| == 1 {
      assert Join(ws, " ") == "" + ws[0] + "";
      SplitStep("", ws[0], "");
      assert Split("") == [];
    } else if |ws| > 1 {
      SplitOfJoinCons(ws[0], Join(ws[1..], " "));
      assert Join(ws, " ") == ws[0] + " " + Join(ws[1..], " ");
      SplitJoin(ws[1..]);
      assert ws == [ws[0]] + ws[1..];
    }
  }

  /** A word, a blank and more text: `split()` takes the word and then splits the text. */
  lemma SplitOfJoinCons(w: string, j: string)
    requires IsWord(w)
    ensures Split(w + " " + j) == [w] + Split(j)
  {
    var u := " " + j;
    assert w + " " + j == "" + w + u;
    SplitStep("", w, u);
    SplitSkipsLeadingSpace(u);
    assert u[1..] == j;
  }

  lemma {:induction false} WordRunOfWord(w: string, rest: string)
    requires IsWord(w)
    requires |rest| == 0 || IsSpace(rest[0])
    ensures WordRun(w + rest) == |w|
    decreases |w|
  {
    var s := w + rest;
    if |w| > 1 {
      assert s[1..] == w[1..] + rest;
      WordRunOfWord(w[1..], rest);
    } else {
      assert s[1..] == rest;
    }
  }

  datatype CmdError = Usage | NotANumber(arg: string) | UnknownNode(id: int)

  /** A text to send: from the interface of a node, to everyone or to a hardware id. */
  datatype SendText = SendText(iface: Iface, text: string, destination: Option<int>, wantAck: bool)

  /** `broadcast <fromNode> <txt>`. */
  method DoBroadcast(line: string, nodes: seq<Node>) returns (r: Result<SendText, CmdError>)
    ensures var args := Split(line);
      r.Ok? <==> |args| >= 2 && ParseInt(args[0]).Some? && GetNodeIfaceById(nodes, ParseInt(args[0]).value).Some?
    ensures var args := Split(line);
      r.Ok? ==> r.value == SendText(GetNodeIfaceById(nodes, ParseInt(args[0]).value).value,
                                    Join(args[1..], " "), None, false)
  {
    var args := Split(line);
    if |args| < 2 {
      return Err(Usage);
    }
    var from := ParseInt(args[0]);
    if from.None? {
      return Err(NotANumber(args[0]));
    }
    var iface := GetNodeIfaceById(nodes, from.value);
    if iface.None? {
      return Err(UnknownNode(from.value));
    }
    var txt := TextFrom(args, 1);
    return Ok(SendText(iface.value, txt, None, false));
  }

  /** `DM <fromNode> <toNode> <txt>`: both nodes are checked before anything is sent. */
  method DoDM(line: string, nodes: seq<Node>) returns (r: Result<SendText, CmdError>)
    ensures var args := Split(line);
      r.Ok? <==> && |args| >= 3
                 && ParseInt(args[0]).Some? && GetNodeIfaceById(nodes, ParseInt(args[0]).value).Some?
                 && ParseInt(args[1]).Some? && GetNodeIfaceById(nodes, ParseInt(args[1]).value).Some?
    ensures var args := Split(line);
      r.Ok? ==> r.value == SendText(GetNodeIfaceById(nodes, ParseInt(args[0]).value).value,
                                    Join(args[2..], " "), Some(NodeIdToHwId(ParseInt(args[1]).value)), true)
  {
    var args := Split(line);
    if |args| < 3 {
      return Err(Usage);
    }
    var from := ParseInt(args[0]);
    if from.None? {
      return Err(NotANumber(args[0]));
    }
    var iface := GetNodeIfaceById(nodes, from.value);
    if iface.None? {
      return Err(UnknownNode(from.value));
    }
    var to := ParseInt(args[1]);
    if to.None? {
      return Err(NotANumber(args[1]));
    }
    if GetNodeIfaceById(nodes, to.value).None? {
      return Err(UnknownNode(to.value));
    }
    var txt := TextFrom(args, 2);
    return Ok(SendText(iface.value, txt, Some(NodeIdToHwId(to.value)), true));
  }

  /** The text a node is told to send splits back into the words typed after the node ids. */
  lemma TextKeepsWords(line: string, start: nat)
    requires start < |Split(line)|
    ensures Split(Join(Split(line)[start..], " ")) == Split(line)[start..]
  {
    SplitJoin(Split(line)[start..]);
  }

  // ---------------------------------------------------------------------
  // Node removal
  // ---------------------------------------------------------------------

  /** The node list after a removal and the interface that was shut down, if any. */
  datatype Removal = Removal(nodes: seq<Node>, closed: Option<Iface>)

  datatype RemoveError = IndexError

  /**
   * `remove <id>` as written: the node is looked up by hardware id and its
   * interface is closed, but the list entry deleted is the one at position
   * `id` (Python `del nodes[id]`, negative positions counting from the end).
   */
  function RemoveAsWritten(nodes: seq<Node>, id: int): Result<Removal, RemoveError>
  {
    match GetNodeIfaceById(nodes, id)
    case None => Ok(Removal(nodes, None))
    case Some(iface) =>
      if 0 <= id < |nodes| then Ok(Removal(nodes[..id] + nodes[id + 1..], Some(iface)))
      else if -|nodes| <= id < 0 then
        var k := |nodes| + id;
        Ok(Removal(nodes[..k] + nodes[k + 1..], Some(iface)))
      else Err(IndexError)
  }

  /** `remove <id>` as intended: the node whose interface is closed is the one taken out of the list. */
  function Remove(nodes: seq<Node>, id: int): (r: Removal)
    ensures r.closed == GetNodeIfaceById(nodes, id)
    ensures r.closed.None? ==> r.nodes == nodes
    ensures r.closed.Some? ==> exists k :: (0 <= k < |nodes| && nodes[k].hwId == NodeIdToHwId(id) &&
                                            nodes[k].iface == r.closed && r.nodes == nodes[..k] + nodes[k + 1..])
  {
    match FindByHwId(nodes, NodeIdToHwId(id))
    case None => Removal(nodes, None)
    case Some(k) =>
      match nodes[k].iface
      case None => Removal(nodes, None)
      case Some(iface) => Removal(nodes[..k] + nodes[k + 1..], Some(iface))
  }

  /** In a freshly numbered list, removing node `id` takes out exactly that node. */
  lemma RemoveTakesOutThatNode(nodes: seq<Node>, id: int)
    requires WellNumbered(nodes)
    requires 0 <= id < |nodes| && nodes[id].iface.Some?
    ensures Remove(nodes, id).nodes == nodes[..id] + nodes[id + 1..]
    ensures forall k :: 0 <= k < |Remove(nodes, id).nodes| ==> Remove(nodes, id).nodes[k].nodeId != id
  {
    FindInNumbered(nodes, id);
  }

  function Connected(i: nat): Node
  {
    Node(i, NodeIdToHwId(i), TcpPortOf(i), 0.0, 0.0, 0.0, false, false, false, 3, 0.0, false,
         Some(i), [], [], [], 0, 0, 0, 0, 0, 0)
  }

  /**
   * With three connected nodes, `remove 0` then `remove 1` closes node 1 but
   * deletes node 2 from the list, leaving the closed node 1 behind.
   */
  lemma RemoveAsWrittenDropsWrongNode()
    ensures var n3 := [Connected(0), Connected(1), Connected(2)];
      && RemoveAsWritten(n3, 0) == Ok(Removal([Connected(1), Connected(2)], Some(0)))
      && RemoveAsWritten([Connected(1), Connected(2)], 1) == Ok(Removal([Connected(1)], Some(1)))
      && Remove([Connected(1), Connected(2)], 1) == Removal([Connected(2)], Some(1))
  {
    var n3 := [Connected(0), Connected(1), Connected(2)];
    assert n3[0].hwId == NodeIdToHwId(0);
    FirstIndexUnique(n3, (n: Node) => n.hwId == NodeIdToHwId(0), 0);
    assert n3[..0] + n3[1..] == [Connected(1), Connected(2)];
    var n2 := [Connected(1), Connected(2)];
    assert n2[0].hwId == NodeIdToHwId(1);
    FirstIndexUnique(n2, (n: Node) => n.hwId == NodeIdToHwId(1), 0);
    assert n2[..0] + n2[1..] == [Connected(2)];
    assert n2[..1] + n2[2..] == [Connected(1)];
  }
}
