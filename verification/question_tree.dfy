/** The question tree of one CommCare form, built in a single pass over the
    form's question records in document order
    (management/commands/scrape.py, `get_all_forms` and `find_parent`).

    Each record names, through its optional `group` and `repeat`
    attributes, the scope it belongs to; the scope is looked up by `value`
    in the tree built so far and the record is appended to that node's
    `groups`, `loops` or `questions` list. */
module QuestionTree {
  import opened Wrappers
  import opened Strings

  const REPEAT: string := "Repeat"
  const TRIGGER: string := "Trigger"

  /** One already-parsed question record of the form's XML. */
  datatype Question = Question(
    groupHint: Option<string>,    // text of the `group` attribute
    repeatHint: Option<string>,   // text of the `repeat` attribute
    qtype: string,                // `type`, e.g. "Text", "Group", "Repeat", "Trigger"
    isGroup: bool,                // `is_group` was "True"
    value: Option<string>,        // `value`: the internal path other records refer to
    id: string,                   // `hashtagValue` without its "#form/" prefix
    text: Option<string>,         // first translation
    calculation: Option<string>)  // `calculate`

  /** What a tree node is: the form itself or one of its questions. */
  datatype Info = FormInfo(name: string, xmlns: string) | QuestionInfo(question: Question)

  /** A node with its three child lists. Entries of `questions` are never
      searched or extended, so they are kept as plain records. */
  datatype Node = Node(info: Info, groups: seq<Node>, loops: seq<Node>, questions: seq<Question>)
  {
    /** The form root's `value` is None; a question's is its own. */
    function Value(): Option<string> {
      if info.FormInfo? then None else info.question.value
    }
  }

  function FormRoot(name: string, xmlns: string): Node {
    Node(FormInfo(name, xmlns), [], [], [])
  }

  function Leaf(q: Question): Node {
    Node(QuestionInfo(q), [], [], [])
  }

  datatype TreeError = ParentNotFound(key: Option<string>)

  // ---------------------------------------------------------------------
  // Parent resolution
  // ---------------------------------------------------------------------

  /** Python truthiness of an attribute: present and not empty. */
  predicate Present(hint: Option<string>) {
    hint.Some? && hint.value != ""
  }

  /** The `value` of the scope a record belongs to. With both hints the
      group is chosen only when the loop path is a substring of the group
      path and strictly shorter (the group lies inside the loop); a loop
      hint without a group hint is ignored, so the key is None, the
      form root's own `value`. */
  function ParentKey(q: Question): (key: Option<string>)
    ensures key.Some? <==> Present(q.groupHint)
    ensures key.Some? ==> Present(key) && (key == q.groupHint || key == q.repeatHint)
    ensures Present(q.groupHint) && !Present(q.repeatHint) ==> key == q.groupHint
    ensures Present(q.groupHint) && Present(q.repeatHint) ==>
      (key == q.groupHint || !(Contains(q.groupHint.value, q.repeatHint.value)
                               && |q.groupHint.value| > |q.repeatHint.value|))
    ensures Present(q.groupHint) && Present(q.repeatHint) ==>
      (key == q.repeatHint || (Contains(q.groupHint.value, q.repeatHint.value)
                               && |q.groupHint.value| > |q.repeatHint.value|))
  {
    if !Present(q.groupHint) then None
    else if Present(q.repeatHint) then
      var g := q.groupHint.value;
      var r := q.repeatHint.value;
      if Contains(g, r) && |g| > |r| then q.groupHint else q.repeatHint
    else q.groupHint
  }

  /** `find_parent`: the first node whose `value` is `key`, trying the
      node itself, then its groups in order, then its loops in order. */
  function FindParent(n: Node, key: Option<string>): (r: Option<Node>)
    ensures r.Some? ==> r.value.Value() == key
    decreases n, 1
  {
    if n.Value() == key then Some(n)
    else
      match FindIn(n.groups, key)
      case Some(m) => Some(m)
      case None => FindIn(n.loops, key)
  }

  function FindIn(ns: seq<Node>, key: Option<string>): (r: Option<Node>)
    ensures r.Some? ==> r.value.Value() == key
    decreases ns, 0
  {
    if |ns| == 0 then None
    else
      match FindParent(ns[0], key)
      case Some(m) => Some(m)
      case None => FindIn(ns[1..], key)
  }

  // ---------------------------------------------------------------------
  // Reference order: preorder listing
  // ---------------------------------------------------------------------

  /** Every searchable node: the node, then its groups' subtrees, then its
      loops' subtrees. */
  function Preorder(n: Node): seq<Node>
    decreases n, 1
  {
    [n] + PreorderIn(n.groups) + PreorderIn(n.loops)
  }

  function PreorderIn(ns: seq<Node>): seq<Node>
    decreases ns, 0
  {
    if |ns| == 0 then [] else Preorder(ns[0]) + PreorderIn(ns[1..])
  }

  /** The first entry of `s` with the given `value`. */
  function FirstWith(s: seq<Node>, key: Option<string>): (r: Option<Node>)
    ensures r.None? <==> forall i :: 0 <= i < |s| ==> s[i].Value() != key
    ensures r.Some? ==> exists i :: 0 <= i < |s| && s[i] == r.value && s[i].Value() == key
                                    && forall j :: 0 <= j < i ==> s[j].Value() != key
  {
    if |s| == 0 then None
    else if s[0].Value() == key then Some(s[0])
    else
      var r := FirstWith(s[1..], key);
      assert forall i :: 1 <= i < |s| ==> s[i] == s[1..][i - 1];
      r
  }

  lemma {:induction false} FirstWithAppend(a: seq<Node>, b: seq<Node>, key: Option<string>)
    ensures FirstWith(a + b, key) ==
      (if FirstWith(a, key).Some? then FirstWith(a, key) else FirstWith(b, key))
    decreases |a|
  {
    if |a| != 0 {
      assert (a + b)[1..] == a[1..] + b;
      FirstWithAppend(a[1..], b, key);
    } else {
      assert a + b == b;
    }
  }

  /** `find_parent` returns exactly the first preorder node with the key,
      and None exactly when no node carries it. */
  lemma {:induction false} FindParentIsFirstInPreorder(n: Node, key: Option<string>)
    ensures FindParent(n, key) == FirstWith(Preorder(n), key)
    ensures FindParent(n, key).None? <==> forall m :: m in Preorder(n) ==> m.Value() != key
    decreases n, 1
  {
    FindInIsFirstInPreorder(n.groups, key);
    FindInIsFirstInPreorder(n.loops, key);
    var a := PreorderIn(n.groups);
    var b := PreorderIn(n.loops);
    assert Preorder(n) == [n] + (a + b);
    FirstWithAppend([n], a + b, key);
    FirstWithAppend(a, b, key);
  }

  lemma {:induction false} FindInIsFirstInPreorder(ns: seq<Node>, key: Option<string>)
    ensures FindIn(ns, key) == FirstWith(PreorderIn(ns), key)
    decreases ns, 0
  {
    if |ns| != 0 {
      FindParentIsFirstInPreorder(ns[0], key);
      FindInIsFirstInPreorder(ns[1..], key);
      FirstWithAppend(Preorder(ns[0]), PreorderIn(ns[1..]), key);
    }
  }

  // ---------------------------------------------------------------------
  // Placement
  // ---------------------------------------------------------------------

  datatype Slot = GroupSlot | LoopSlot | QuestionSlot

  /** Which child lists of its parent a record is appended to: a group
      that is not a Repeat to `groups`; a Repeat to `loops`; anything that
      is not a group to `questions` (so a non-group Repeat lands in two). */
  predicate GoesTo(q: Question, s: Slot) {
    match s
    case GroupSlot => q.isGroup && q.qtype != REPEAT
    case LoopSlot => q.qtype == REPEAT
    case QuestionSlot => !q.isGroup
  }

  /** Every record goes somewhere; a Repeat goes to `questions` too
      exactly when its `is_group` flag is false; a group is never a plain
      question. */
  lemma Classification(q: Question)
    ensures GoesTo(q, GroupSlot) || GoesTo(q, LoopSlot) || GoesTo(q, QuestionSlot)
    ensures !(GoesTo(q, GroupSlot) && GoesTo(q, LoopSlot))
    ensures !(GoesTo(q, GroupSlot) && GoesTo(q, QuestionSlot))
    ensures GoesTo(q, LoopSlot) && GoesTo(q, QuestionSlot) <==> q.qtype == REPEAT && !q.isGroup
  {
  }

  function Attach(parent: Node, q: Question): Node {
    parent.(groups := parent.groups + (if GoesTo(q, GroupSlot) then [Leaf(q)] else []),
            loops := parent.loops + (if GoesTo(q, LoopSlot) then [Leaf(q)] else []),
            questions := parent.questions + (if GoesTo(q, QuestionSlot) then [q] else []))
  }

  /** Appends `q` to the first preorder node whose `value` is `key`.
      It succeeds exactly when `find_parent` finds a node, and afterwards
      the first match is that same node with `q` attached. */
  function Place(n: Node, key: Option<string>, q: Question): (r: Option<Node>)
    ensures r.Some? <==> FindParent(n, key).Some?
    ensures r.Some? ==> FindParent(r.value, key) == Some(Attach(FindParent(n, key).value, q))
    ensures r.Some? ==> r.value.info == n.info
    decreases n, 1
  {
    if n.Value() == key then Some(Attach(n, q))
    else
      match PlaceIn(n.groups, key, q)
      case Some(gs) => Some(n.(groups := gs))
      case None =>
        match PlaceIn(n.loops, key, q)
        case Some(ls) => Some(n.(loops := ls))
        case None => None
  }

  function PlaceIn(ns: seq<Node>, key: Option<string>, q: Question): (r: Option<seq<Node>>)
    ensures r.Some? <==> FindIn(ns, key).Some?
    ensures r.Some? ==> FindIn(r.value, key) == Some(Attach(FindIn(ns, key).value, q))
    ensures r.Some? ==> |r.value| == |ns| && forall i :: 0 <= i < |ns| ==> r.value[i].info == ns[i].info
    decreases ns, 0
  {
    if |ns| == 0 then None
    else
      match Place(ns[0], key, q)
      case Some(m) => Some([m] + ns[1..])
      case None =>
        match PlaceIn(ns[1..], key, q)
        case Some(rest) => Some([ns[0]] + rest)
        case None => None
  }

  // ---------------------------------------------------------------------
  // Placement as an edit at one preorder position
  // ---------------------------------------------------------------------

  /** The index of the first entry of `s` with the given `value`, or `|s|`
      when there is none. */
  function FirstIndex(s: seq<Node>, key: Option<string>): (i: nat)
    ensures i <= |s|
    ensures i < |s| ==> s[i].Value() == key
    ensures forall j :: 0 <= j < i ==> s[j].Value() != key
  {
    if |s| == 0 then 0
    else if s[0].Value() == key then 0
    else
      assert forall j :: 1 <= j < |s| ==> s[j] == s[1..][j - 1];
      1 + FirstIndex(s[1..], key)
  }

  /** The first index is the only index with its two properties. */
  lemma FirstIndexUnique(s: seq<Node>, key: Option<string>, i: nat)
    requires i <= |s|
    requires i < |s| ==> s[i].Value() == key
    requires forall j :: 0 <= j < i ==> s[j].Value() != key
    ensures FirstIndex(s, key) == i
  {
  }

  lemma FirstIndexAppend(a: seq<Node>, b: seq<Node>, key: Option<string>)
    ensures FirstIndex(a + b, key) ==
      if FirstIndex(a, key) < |a| then FirstIndex(a, key) else |a| + FirstIndex(b, key)
  {
    var ia, ib := FirstIndex(a, key), FirstIndex(b, key);
    if ia < |a| {
      assert (a + b)[ia] == a[ia];
      FirstIndexUnique(a + b, key, ia);
    } else {
      assert forall j :: |a| <= j < |a| + ib ==> (a + b)[j] == b[j - |a|];
      assert |a| + ib < |a + b| ==> (a + b)[|a| + ib] == b[ib];
      FirstIndexUnique(a + b, key, |a| + ib);
    }
  }

  /** The first entry with a `value` sits at the first index. */
  lemma FirstWithAtFirstIndex(s: seq<Node>, key: Option<string>)
    ensures FirstWith(s, key) == if FirstIndex(s, key) < |s| then Some(s[FirstIndex(s, key)]) else None
  {
    if FirstWith(s, key).Some? {
      var i :| 0 <= i < |s| && s[i] == FirstWith(s, key).value && s[i].Value() == key
               && forall j :: 0 <= j < i ==> s[j].Value() != key;
      FirstIndexUnique(s, key, i);
    }
  }

  /** The tree with `q` attached to its `i`-th preorder node and every
      other node left in its place. */
  function AttachAt(n: Node, i: nat, q: Question): (r: Node)
    ensures r.info == n.info
    decreases n, 1
  {
    if i == 0 then Attach(n, q)
    else if i - 1 < |PreorderIn(n.groups)| then n.(groups := AttachAtIn(n.groups, i - 1, q))
    else n.(loops := AttachAtIn(n.loops, i - 1 - |PreorderIn(n.groups)|, q))
  }

  function AttachAtIn(ns: seq<Node>, i: nat, q: Question): (r: seq<Node>)
    ensures |r| == |ns| && forall k :: 0 <= k < |ns| ==> r[k].info == ns[k].info
    decreases ns, 0
  {
    if |ns| == 0 then ns
    else if i < |Preorder(ns[0])| then [AttachAt(ns[0], i, q)] + ns[1..]
    else [ns[0]] + AttachAtIn(ns[1..], i - |Preorder(ns[0])|, q)
  }

  /** Placing a record is attaching it at the first preorder position
      whose `value` is the key, and fails when there is none. */
  lemma {:induction false} PlaceAtFirstMatch(n: Node, key: Option<string>, q: Question)
    ensures Place(n, key, q) ==
      if FirstIndex(Preorder(n), key) < |Preorder(n)|
      then Some(AttachAt(n, FirstIndex(Preorder(n), key), q)) else None
    decreases n, 1
  {
    if n.Value() == key {
      var p := Preorder(n);
      assert p[0] == n;
      FirstIndexUnique(p, key, 0);
    } else if FirstIndex(PreorderIn(n.groups), key) < |PreorderIn(n.groups)| {
      PlaceGroupsAtFirstMatch(n, key, q);
    } else {
      PlaceLoopsAtFirstMatch(n, key, q);
    }
  }

  /** Below a root that does not match, the first match is one past the
      first match in the groups' preorder, or else in the loops'. */
  lemma FirstIndexBelow(n: Node, key: Option<string>)
    requires n.Value() != key
    ensures var a, b := PreorderIn(n.groups), PreorderIn(n.loops);
      FirstIndex(Preorder(n), key) ==
        1 + (if FirstIndex(a, key) < |a| then FirstIndex(a, key) else |a| + FirstIndex(b, key))
  {
    var a, b := PreorderIn(n.groups), PreorderIn(n.loops);
    assert Preorder(n) == [n] + (a + b);
    FirstIndexAppend([n], a + b, key);
    assert FirstIndex([n], key) == 1;
    FirstIndexAppend(a, b, key);
  }

  lemma {:induction false} PlaceGroupsAtFirstMatch(n: Node, key: Option<string>, q: Question)
    requires n.Value() != key
    requires FirstIndex(PreorderIn(n.groups), key) < |PreorderIn(n.groups)|
    ensures FirstIndex(Preorder(n), key) < |Preorder(n)|
    ensures Place(n, key, q) == Some(AttachAt(n, FirstIndex(Preorder(n), key), q))
    decreases n, 0
  {
    var ia := FirstIndex(PreorderIn(n.groups), key);
    FirstIndexBelow(n, key);
    PlaceInAtFirstMatch(n.groups, key, q);
    assert Place(n, key, q) == Some(n.(groups := AttachAtIn(n.groups, ia, q)));
  }

  lemma {:induction false} PlaceLoopsAtFirstMatch(n: Node, key: Option<string>, q: Question)
    requires n.Value() != key
    requires FirstIndex(PreorderIn(n.groups), key) == |PreorderIn(n.groups)|
    ensures Place(n, key, q) ==
      if FirstIndex(Preorder(n), key) < |Preorder(n)|
      then Some(AttachAt(n, FirstIndex(Preorder(n), key), q)) else None
    decreases n, 0
  {
    var a := PreorderIn(n.groups);
    var ib := FirstIndex(PreorderIn(n.loops), key);
    FirstIndexBelow(n, key);
    PlaceInAtFirstMatch(n.groups, key, q);
    PlaceInAtFirstMatch(n.loops, key, q);
    if ib < |PreorderIn(n.loops)| {
      assert Place(n, key, q) == Some(n.(loops := AttachAtIn(n.loops, ib, q)));
      assert AttachAt(n, 1 + |a| + ib, q) == n.(loops := AttachAtIn(n.loops, ib, q));
    }
  }

  lemma {:induction false} PlaceInAtFirstMatch(ns: seq<Node>, key: Option<string>, q: Question)
    ensures PlaceIn(ns, key, q) ==
      if FirstIndex(PreorderIn(ns), key) < |PreorderIn(ns)|
      then Some(AttachAtIn(ns, FirstIndex(PreorderIn(ns), key), q)) else None
    decreases ns, 1
  {
    if |ns| != 0 {
      var first, rest := Preorder(ns[0]), PreorderIn(ns[1..]);
      FirstIndexAppend(first, rest, key);
      if FirstIndex(first, key) < |first| {
        PlaceInHeadAtFirstMatch(ns, key, q);
      } else {
        PlaceInTailAtFirstMatch(ns, key, q);
      }
    }
  }

  /** The same, when the first match is in the first subtree. */
  lemma {:induction false} PlaceInHeadAtFirstMatch(ns: seq<Node>, key: Option<string>, q: Question)
    requires |ns| > 0 && FirstIndex(Preorder(ns[0]), key) < |Preorder(ns[0])|
    ensures PlaceIn(ns, key, q) == Some(AttachAtIn(ns, FirstIndex(Preorder(ns[0]), key), q))
    decreases ns, 0
  {
    var h := FirstIndex(Preorder(ns[0]), key);
    PlaceAtFirstMatch(ns[0], key, q);
    assert PlaceIn(ns, key, q) == Some([AttachAt(ns[0], h, q)] + ns[1..]);
  }

  /** The same, when the first subtree holds no match. */
  lemma {:induction false} PlaceInTailAtFirstMatch(ns: seq<Node>, key: Option<string>, q: Question)
    requires |ns| > 0 && FirstIndex(Preorder(ns[0]), key) == |Preorder(ns[0])|
    ensures var first, rest := Preorder(ns[0]), PreorderIn(ns[1..]);
      PlaceIn(ns, key, q) ==
        if FirstIndex(rest, key) < |rest|
        then Some(AttachAtIn(ns, |first| + FirstIndex(rest, key), q)) else None
    decreases ns, 0
  {
    var first, rest := Preorder(ns[0]), PreorderIn(ns[1..]);
    PlaceAtFirstMatch(ns[0], key, q);
    PlaceInAtFirstMatch(ns[1..], key, q);
    var t := FirstIndex(rest, key);
    if t < |rest| {
      assert AttachAtIn(ns, |first| + t, q) == [ns[0]] + AttachAtIn(ns[1..], t, q);
    }
  }


  /** What a node holds itself: its record, the records of its two child
      lists, and its questions. */
  type Held = (Info, seq<Info>, seq<Info>, seq<Question>)

  function Own(m: Node): Held {
    (m.info, Infos(m.groups), Infos(m.loops), m.questions)
  }

  function Owns(s: seq<Node>): seq<Held> {
    seq(|s|, k requires 0 <= k < |s| => Own(s[k]))
  }

  lemma OwnsAppend(a: seq<Node>, b: seq<Node>)
    ensures Owns(a + b) == Owns(a) + Owns(b)
  {
  }

  /** `after` is the preorder listing `p` with the subtree at position
      `i` replaced by that of the node there with `q` attached: the nodes
      before it and the nodes after its subtree keep what they hold. */
  ghost predicate SplicedAt(p: seq<Node>, i: nat, q: Question, after: seq<Node>) {
    && i < |p|
    && i + |Preorder(p[i])| <= |p|
    && Owns(after) == Owns(p[..i]) + Owns(Preorder(Attach(p[i], q))) + Owns(p[i + |Preorder(p[i])|..])
  }

  /** The splice, stated with the spliced node and the end of its subtree
      named. */
  lemma SplicedAtIntro(p: seq<Node>, i: nat, q: Question, after: seq<Node>, m: Node, f: nat)
    requires i < |p| && p[i] == m && f == i + |Preorder(m)| <= |p|
    requires Owns(after) == Owns(p[..i]) + Owns(Preorder(Attach(m, q))) + Owns(p[f..])
    ensures SplicedAt(p, i, q, after)
  {
  }

  /** A splice inside the front part `x` of `p == x + y` is a splice of
      `p`. */
  lemma SpliceFront(x: seq<Node>, y: seq<Node>, p: seq<Node>, i: nat, f: nat, o: seq<Held>, x': seq<Node>)
    requires p == x + y && i <= f <= |x|
    requires Owns(x') == Owns(x[..i]) + o + Owns(x[f..])
    ensures Owns(x' + y) == Owns(p[..i]) + o + Owns(p[f..])
  {
    assert p[..i] == x[..i];
    assert p[f..] == x[f..] + y;
    OwnsAppend(x', y);
    OwnsAppend(x[f..], y);
  }

  /** A splice inside the back part `y` of `p == x + y`, at `k` and `e` in
      `y`'s own numbering, is a splice of `p`. */
  lemma SpliceBack(x: seq<Node>, y: seq<Node>, p: seq<Node>, k: nat, e: nat, i: nat, f: nat,
                   o: seq<Held>, y': seq<Node>)
    requires p == x + y && k <= e <= |y| && i == |x| + k && f == |x| + e
    requires Owns(y') == Owns(y[..k]) + o + Owns(y[e..])
    ensures Owns(x + y') == Owns(p[..i]) + o + Owns(p[f..])
  {
    assert p[..i] == x + y[..k];
    assert p[f..] == y[e..];
    OwnsAppend(x, y');
    OwnsAppend(x, y[..k]);
  }

  /** Replacing the groups by a list with the same records keeps what the
      node itself holds. */
  lemma OwnsWithGroups(n: Node, gs: seq<Node>)
    requires |gs| == |n.groups| && forall k :: 0 <= k < |gs| ==> gs[k].info == n.groups[k].info
    ensures Owns(Preorder(n.(groups := gs))) == Owns([n] + (PreorderIn(gs) + PreorderIn(n.loops)))
  {
    var r := n.(groups := gs);
    var rest := PreorderIn(gs) + PreorderIn(n.loops);
    assert Infos(gs) == Infos(n.groups);
    assert Preorder(r) == [r] + rest;
    OwnsAppend([r], rest);
    OwnsAppend([n], rest);
  }

  lemma OwnsWithLoops(n: Node, ls: seq<Node>)
    requires |ls| == |n.loops| && forall k :: 0 <= k < |ls| ==> ls[k].info == n.loops[k].info
    ensures Owns(Preorder(n.(loops := ls))) == Owns([n] + PreorderIn(n.groups) + PreorderIn(ls))
  {
    var r := n.(loops := ls);
    var rest := PreorderIn(n.groups) + PreorderIn(ls);
    assert Infos(ls) == Infos(n.loops);
    assert Preorder(r) == [r] + rest;
    assert [n] + PreorderIn(n.groups) + PreorderIn(ls) == [n] + rest;
    OwnsAppend([r], rest);
    OwnsAppend([n], rest);
  }

  /** A splice of the groups' preorder is a splice of the node's. */
  lemma SpliceGroups(n: Node, gs: seq<Node>, j: nat, e: nat, o: seq<Held>, i: nat, f: nat)
    requires |gs| == |n.groups| && forall k :: 0 <= k < |gs| ==> gs[k].info == n.groups[k].info
    requires j <= e <= |PreorderIn(n.groups)| && i == 1 + j && f == 1 + e
    requires Owns(PreorderIn(gs)) == Owns(PreorderIn(n.groups)[..j]) + o + Owns(PreorderIn(n.groups)[e..])
    ensures Owns(Preorder(n.(groups := gs))) == Owns(Preorder(n)[..i]) + o + Owns(Preorder(n)[f..])
  {
    var p, a, b := Preorder(n), PreorderIn(n.groups), PreorderIn(n.loops);
    assert p == [n] + (a + b);
    OwnsWithGroups(n, gs);
    SpliceFront(a, b, a + b, j, e, o, PreorderIn(gs));
    SpliceBack([n], a + b, p, j, e, i, f, o, PreorderIn(gs) + b);
  }

  /** A splice of the loops' preorder is a splice of the node's. */
  lemma SpliceLoops(n: Node, ls: seq<Node>, k: nat, e: nat, o: seq<Held>, i: nat, f: nat)
    requires |ls| == |n.loops| && forall k :: 0 <= k < |ls| ==> ls[k].info == n.loops[k].info
    requires k <= e <= |PreorderIn(n.loops)|
    requires i == 1 + |PreorderIn(n.groups)| + k && f == 1 + |PreorderIn(n.groups)| + e
    requires Owns(PreorderIn(ls)) == Owns(PreorderIn(n.loops)[..k]) + o + Owns(PreorderIn(n.loops)[e..])
    ensures Owns(Preorder(n.(loops := ls))) == Owns(Preorder(n)[..i]) + o + Owns(Preorder(n)[f..])
  {
    var p, front, b := Preorder(n), [n] + PreorderIn(n.groups), PreorderIn(n.loops);
    assert p == front + b;
    OwnsWithLoops(n, ls);
    SpliceBack(front, b, p, k, e, i, f, o, PreorderIn(ls));
  }

  /** Attaching at a position changes only that node's subtree. */
  lemma {:induction false} AttachAtFrame(n: Node, i: nat, q: Question)
    requires i < |Preorder(n)|
    ensures SplicedAt(Preorder(n), i, q, Preorder(AttachAt(n, i, q)))
    decreases n, 2
  {
    var p := Preorder(n);
    assert p == [n] + PreorderIn(n.groups) + PreorderIn(n.loops);
    if i == 0 {
      assert p[..0] == [] && p[|p|..] == [];
    } else if i - 1 < |PreorderIn(n.groups)| {
      AttachAtFrameGroups(n, i, q);
    } else {
      AttachAtFrameLoops(n, i, q);
    }
  }

  lemma {:induction false} AttachAtFrameGroups(n: Node, i: nat, q: Question)
    requires 1 <= i <= |PreorderIn(n.groups)|
    ensures SplicedAt(Preorder(n), i, q, Preorder(AttachAt(n, i, q)))
    decreases n, 1
  {
    var p, a, b := Preorder(n), PreorderIn(n.groups), PreorderIn(n.loops);
    var j := i - 1;
    var m := a[j];
    var e := j + |Preorder(m)|;
    var o := Owns(Preorder(Attach(m, q)));
    var gs := AttachAtIn(n.groups, j, q);
    assert p[i] == m && |p| == 1 + |a| + |b| by {
      assert p == [n] + (a + b);
    }
    assert e <= |a| && Owns(PreorderIn(gs)) == Owns(a[..j]) + o + Owns(a[e..]) by {
      AttachAtInFrame(n.groups, j, q);
    }
    assert AttachAt(n, i, q) == n.(groups := gs);
    SpliceGroups(n, gs, j, e, o, i, 1 + e);
    SplicedAtIntro(p, i, q, Preorder(AttachAt(n, i, q)), m, 1 + e);
  }

  lemma {:induction false} AttachAtFrameLoops(n: Node, i: nat, q: Question)
    requires 1 + |PreorderIn(n.groups)| <= i < |Preorder(n)|
    ensures SplicedAt(Preorder(n), i, q, Preorder(AttachAt(n, i, q)))
    decreases n, 1
  {
    var p, a, b := Preorder(n), PreorderIn(n.groups), PreorderIn(n.loops);
    var g := 1 + |a|;
    var k := i - g;
    var m := b[k];
    var e := k + |Preorder(m)|;
    var o := Owns(Preorder(Attach(m, q)));
    var ls := AttachAtIn(n.loops, k, q);
    assert p[i] == m && |p| == g + |b| by {
      assert p == ([n] + a) + b;
    }
    assert e <= |b| && Owns(PreorderIn(ls)) == Owns(b[..k]) + o + Owns(b[e..]) by {
      AttachAtInFrame(n.loops, k, q);
    }
    assert AttachAt(n, i, q) == n.(loops := ls);
    SpliceLoops(n, ls, k, e, o, i, g + e);
    SplicedAtIntro(p, i, q, Preorder(AttachAt(n, i, q)), m, g + e);
  }

  lemma {:induction false} AttachAtInFrame(ns: seq<Node>, i: nat, q: Question)
    requires i < |PreorderIn(ns)|
    ensures SplicedAt(PreorderIn(ns), i, q, PreorderIn(AttachAtIn(ns, i, q)))
    decreases ns, 1
  {
    if i < |Preorder(ns[0])| {
      AttachAtInFrameHead(ns, i, q);
    } else {
      AttachAtInFrameTail(ns, i, q);
    }
  }

  lemma {:induction false} AttachAtInFrameHead(ns: seq<Node>, i: nat, q: Question)
    requires |ns| > 0 && i < |Preorder(ns[0])|
    ensures SplicedAt(PreorderIn(ns), i, q, PreorderIn(AttachAtIn(ns, i, q)))
    decreases ns[0], 3
  {
    var all, first, rest := PreorderIn(ns), Preorder(ns[0]), PreorderIn(ns[1..]);
    assert all == first + rest;
    var m := first[i];
    assert all[i] == m;
    var e := i + |Preorder(m)|;
    var o := Owns(Preorder(Attach(m, q)));
    AttachAtFrame(ns[0], i, q);
    var t := AttachAt(ns[0], i, q);
    assert e <= |first| && Owns(Preorder(t)) == Owns(first[..i]) + o + Owns(first[e..]);
    var r := AttachAtIn(ns, i, q);
    assert r == [t] + ns[1..];
    assert r[0] == t && r[1..] == ns[1..];
    assert PreorderIn(r) == Preorder(t) + rest;
    SpliceFront(first, rest, all, i, e, o, Preorder(t));
    SplicedAtIntro(all, i, q, PreorderIn(r), m, e);
  }

  lemma {:induction false} AttachAtInFrameTail(ns: seq<Node>, i: nat, q: Question)
    requires |ns| > 0 && |Preorder(ns[0])| <= i < |PreorderIn(ns)|
    ensures SplicedAt(PreorderIn(ns), i, q, PreorderIn(AttachAtIn(ns, i, q)))
    decreases ns, 0
  {
    var all, first, rest := PreorderIn(ns), Preorder(ns[0]), PreorderIn(ns[1..]);
    assert all == first + rest;
    var k := i - |first|;
    var m := rest[k];
    assert all[i] == m;
    var e := k + |Preorder(m)|;
    var o := Owns(Preorder(Attach(m, q)));
    AttachAtInFrame(ns[1..], k, q);
    var tail := AttachAtIn(ns[1..], k, q);
    assert e <= |rest| && Owns(PreorderIn(tail)) == Owns(rest[..k]) + o + Owns(rest[e..]);
    var r := AttachAtIn(ns, i, q);
    assert r == [ns[0]] + tail;
    assert r[0] == ns[0] && r[1..] == tail;
    assert PreorderIn(r) == first + PreorderIn(tail);
    SpliceBack(first, rest, all, k, e, i, |first| + e, o, PreorderIn(tail));
    SplicedAtIntro(all, i, q, PreorderIn(r), m, |first| + e);
  }

  /** Placing a record changes the tree only at the node `find_parent`
      returns, the first preorder match: the nodes before it and the nodes
      after its subtree keep their own records and child lists, and its
      subtree becomes that of the match with the record attached. */
  lemma PlaceFrame(n: Node, key: Option<string>, q: Question)
    requires Place(n, key, q).Some?
    ensures var p, i := Preorder(n), FirstIndex(Preorder(n), key);
      && i < |p|
      && FindParent(n, key) == Some(p[i])
      && SplicedAt(p, i, q, Preorder(Place(n, key, q).value))
  {
    PlaceAtFirstMatch(n, key, q);
    FindParentIsFirstInPreorder(n, key);
    FirstWithAtFirstIndex(Preorder(n), key);
    AttachAtFrame(n, FirstIndex(Preorder(n), key), q);
  }

  // ---------------------------------------------------------------------
  // Slot contents of a whole tree
  // ---------------------------------------------------------------------

  function Infos(ns: seq<Node>): seq<Info> {
    seq(|ns|, i requires 0 <= i < |ns| => ns[i].info)
  }

  function QuestionInfos(qs: seq<Question>): seq<Info> {
    seq(|qs|, i requires 0 <= i < |qs| => QuestionInfo(qs[i]))
  }

  /** The entries held directly in one child list of `n`. */
  function Direct(n: Node, s: Slot): multiset<Info> {
    match s
    case GroupSlot => multiset(Infos(n.groups))
    case LoopSlot => multiset(Infos(n.loops))
    case QuestionSlot => multiset(QuestionInfos(n.questions))
  }

  /** Everything held in a list of kind `s` anywhere in the tree. */
  function Members(n: Node, s: Slot): multiset<Info>
    decreases n, 1
  {
    Direct(n, s) + MembersIn(n.groups, s) + MembersIn(n.loops, s)
  }

  function MembersIn(ns: seq<Node>, s: Slot): multiset<Info>
    decreases ns, 0
  {
    if |ns| == 0 then multiset{} else Members(ns[0], s) + MembersIn(ns[1..], s)
  }

  function Routed(q: Question, s: Slot): multiset<Info> {
    if GoesTo(q, s) then multiset{QuestionInfo(q)} else multiset{}
  }

  lemma {:induction false} MembersInAppend(a: seq<Node>, b: seq<Node>, s: Slot)
    ensures MembersIn(a + b, s) == MembersIn(a, s) + MembersIn(b, s)
    decreases |a|
  {
    if |a| == 0 {
      assert a + b == b;
    } else {
      assert (a + b)[1..] == a[1..] + b;
      MembersInAppend(a[1..], b, s);
    }
  }

  lemma InfosAppend(a: seq<Node>, b: seq<Node>)
    ensures Infos(a + b) == Infos(a) + Infos(b)
  {
  }

  lemma QuestionInfosAppend(a: seq<Question>, b: seq<Question>)
    ensures QuestionInfos(a + b) == QuestionInfos(a) + QuestionInfos(b)
  {
  }

  lemma DirectAttach(n: Node, q: Question, s: Slot)
    ensures Direct(Attach(n, q), s) == Direct(n, s) + Routed(q, s)
  {
    var r := Attach(n, q);
    match s
    case GroupSlot =>
      InfosAppend(n.groups, if GoesTo(q, GroupSlot) then [Leaf(q)] else []);
    case LoopSlot =>
      InfosAppend(n.loops, if GoesTo(q, LoopSlot) then [Leaf(q)] else []);
    case QuestionSlot =>
      QuestionInfosAppend(n.questions, if GoesTo(q, QuestionSlot) then [q] else []);
  }

  lemma MembersInLeaves(extra: seq<Node>, q: Question, s: Slot)
    requires extra == [] || extra == [Leaf(q)]
    ensures MembersIn(extra, s) == multiset{}
  {
    if extra != [] {
      assert extra[1..] == [];
      assert Members(Leaf(q), s) == multiset{};
    }
  }

  lemma AttachMembers(n: Node, q: Question, s: Slot)
    ensures Members(Attach(n, q), s) == Members(n, s) + Routed(q, s)
  {
    AttachLists(n, q, s);
    DirectAttach(n, q, s);
    UnionMovesLast(Direct(n, s), MembersIn(n.groups, s), MembersIn(n.loops, s), Routed(q, s));
  }

  /** Attaching a record adds only leaves to the child lists. */
  lemma AttachLists(n: Node, q: Question, s: Slot)
    ensures MembersIn(Attach(n, q).groups, s) == MembersIn(n.groups, s)
    ensures MembersIn(Attach(n, q).loops, s) == MembersIn(n.loops, s)
  {
    AppendLeaves(n.groups, if GoesTo(q, GroupSlot) then [Leaf(q)] else [], q, s);
    AppendLeaves(n.loops, if GoesTo(q, LoopSlot) then [Leaf(q)] else [], q, s);
  }

  lemma AppendLeaves(ns: seq<Node>, extra: seq<Node>, q: Question, s: Slot)
    requires extra == [] || extra == [Leaf(q)]
    ensures MembersIn(ns + extra, s) == MembersIn(ns, s)
  {
    MembersInAppend(ns, extra, s);
    MembersInLeaves(extra, q, s);
  }

  lemma UnionMovesLast(a: multiset<Info>, b: multiset<Info>, c: multiset<Info>, x: multiset<Info>)
    ensures (a + x) + b + c == a + b + c + x
  {
  }

  lemma UnionMovesMiddle(a: multiset<Info>, b: multiset<Info>, c: multiset<Info>, x: multiset<Info>)
    ensures a + (b + x) + c == a + b + c + x
  {
  }

  /** Replacing the groups (or the loops) of a node by lists with the same
      entries changes its members only by the members below them. */
  lemma MembersWithGroups(n: Node, gs: seq<Node>, s: Slot)
    requires |gs| == |n.groups| && forall i :: 0 <= i < |gs| ==> gs[i].info == n.groups[i].info
    ensures Members(n.(groups := gs), s) == Direct(n, s) + MembersIn(gs, s) + MembersIn(n.loops, s)
  {
    assert Infos(gs) == Infos(n.groups);
    assert Direct(n.(groups := gs), s) == Direct(n, s);
  }

  lemma MembersWithLoops(n: Node, ls: seq<Node>, s: Slot)
    requires |ls| == |n.loops| && forall i :: 0 <= i < |ls| ==> ls[i].info == n.loops[i].info
    ensures Members(n.(loops := ls), s) == Direct(n, s) + MembersIn(n.groups, s) + MembersIn(ls, s)
  {
    assert Infos(ls) == Infos(n.loops);
    assert Direct(n.(loops := ls), s) == Direct(n, s);
  }

  /** Placing a record adds it to the lists its kind selects and changes
      no list anywhere else in the tree. */
  lemma {:induction false} PlaceMembers(n: Node, key: Option<string>, q: Question, s: Slot)
    requires Place(n, key, q).Some?
    ensures Members(Place(n, key, q).value, s) == Members(n, s) + Routed(q, s)
    decreases n, 1
  {
    var r := Place(n, key, q).value;
    if n.Value() == key {
      assert r == Attach(n, q);
      AttachMembers(n, q, s);
    } else if PlaceIn(n.groups, key, q).Some? {
      var gs := PlaceIn(n.groups, key, q).value;
      assert r == n.(groups := gs);
      PlaceInMembers(n.groups, key, q, s);
      MembersWithGroups(n, gs, s);
      UnionMovesMiddle(Direct(n, s), MembersIn(n.groups, s), MembersIn(n.loops, s), Routed(q, s));
    } else {
      var ls := PlaceIn(n.loops, key, q).value;
      assert r == n.(loops := ls);
      PlaceInMembers(n.loops, key, q, s);
      MembersWithLoops(n, ls, s);
    }
  }

  lemma {:induction false} PlaceInMembers(ns: seq<Node>, key: Option<string>, q: Question, s: Slot)
    requires PlaceIn(ns, key, q).Some?
    ensures MembersIn(PlaceIn(ns, key, q).value, s) == MembersIn(ns, s) + Routed(q, s)
    decreases ns, 0
  {
    var r := PlaceIn(ns, key, q).value;
    if Place(ns[0], key, q).Some? {
      var m := Place(ns[0], key, q).value;
      assert r == [m] + ns[1..];
      PlaceMembers(ns[0], key, q, s);
      assert r[0] == m && r[1..] == ns[1..];
      assert MembersIn(r, s) == Members(m, s) + MembersIn(ns[1..], s);
    } else {
      var rest := PlaceIn(ns[1..], key, q).value;
      assert r == [ns[0]] + rest;
      PlaceInMembers(ns[1..], key, q, s);
      assert r[0] == ns[0] && r[1..] == rest;
      assert MembersIn(r, s) == Members(ns[0], s) + MembersIn(rest, s);
    }
  }

  // ---------------------------------------------------------------------
  // The single pass over a form's records
  // ---------------------------------------------------------------------

  /** One iteration of the question loop: resolve the parent, skip a
      Trigger, otherwise attach the record or fail when the parent is
      missing (the source dereferences None there). */
  function PlaceRecord(tree: Node, q: Question): (r: Result<Node, TreeError>)
    ensures q.qtype == TRIGGER ==> r == Success(tree)
    ensures q.qtype != TRIGGER ==>
      (r.Failure? <==> FindParent(tree, ParentKey(q)).None?)
    ensures r.Failure? ==> r.error == ParentNotFound(ParentKey(q))
    ensures q.qtype != TRIGGER && tree.info.FormInfo? && !Present(q.groupHint) ==>
      r.Success? && r.value == Attach(tree, q)
  {
    if q.qtype == TRIGGER then Success(tree)
    else
      match Place(tree, ParentKey(q), q)
      case None => Failure(ParentNotFound(ParentKey(q)))
      case Some(t) => Success(t)
  }

  /** The records a list of kinds `s` receives from a run: each non-Trigger
      record whose kind selects `s`. */
  function RoutedAll(qs: seq<Question>, s: Slot): multiset<Info> {
    if |qs| == 0 then multiset{}
    else (if qs[0].qtype != TRIGGER then Routed(qs[0], s) else multiset{}) + RoutedAll(qs[1..], s)
  }

  /** All records of one form, in document order. */
  function Normalize(tree: Node, qs: seq<Question>): Result<Node, TreeError>
    decreases |qs|
  {
    if |qs| == 0 then Success(tree)
    else
      match PlaceRecord(tree, qs[0])
      case Failure(e) => Failure(e)
      case Success(t) => Normalize(t, qs[1..])
  }

  function NormalizeForm(name: string, xmlns: string, qs: seq<Question>): Result<Node, TreeError> {
    Normalize(FormRoot(name, xmlns), qs)
  }

  /** A successful pass adds exactly the non-Trigger records, each to the
      lists its kind selects, and keeps the root's identity. */
  lemma {:induction false} NormalizeMembers(tree: Node, qs: seq<Question>, s: Slot)
    requires Normalize(tree, qs).Success?
    ensures Members(Normalize(tree, qs).value, s) == Members(tree, s) + RoutedAll(qs, s)
    ensures Normalize(tree, qs).value.info == tree.info
    decreases |qs|
  {
    if |qs| != 0 {
      var t := PlaceRecord(tree, qs[0]).value;
      var head := if qs[0].qtype != TRIGGER then Routed(qs[0], s) else multiset{};
      if qs[0].qtype != TRIGGER {
        PlaceMembers(tree, ParentKey(qs[0]), qs[0], s);
        assert t == Place(tree, ParentKey(qs[0]), qs[0]).value;
      } else {
        assert t == tree;
      }
      assert Members(t, s) == Members(tree, s) + head;
      assert Normalize(tree, qs) == Normalize(t, qs[1..]);
      NormalizeMembers(t, qs[1..], s);
      assert RoutedAll(qs, s) == head + RoutedAll(qs[1..], s);
    }
  }

  predicate IsTrigger(i: Info) {
    i.QuestionInfo? && i.question.qtype == TRIGGER
  }

  /** No list of the tree holds a Trigger. */
  predicate TriggerFree(n: Node) {
    forall s: Slot, i :: i in Members(n, s) ==> !IsTrigger(i)
  }

  lemma {:induction false} RoutedAllHasNoTrigger(qs: seq<Question>, s: Slot, i: Info)
    requires i in RoutedAll(qs, s)
    ensures !IsTrigger(i)
    decreases |qs|
  {
    if |qs| != 0 {
      if i !in (if qs[0].qtype != TRIGGER then Routed(qs[0], s) else multiset{}) {
        RoutedAllHasNoTrigger(qs[1..], s, i);
      }
    }
  }

  /** A Trigger record is never inserted anywhere: a normalised form has
      none in any of its lists. */
  lemma NormalizeFormIsTriggerFree(name: string, xmlns: string, qs: seq<Question>)
    requires NormalizeForm(name, xmlns, qs).Success?
    ensures TriggerFree(NormalizeForm(name, xmlns, qs).value)
  {
    var r := NormalizeForm(name, xmlns, qs).value;
    forall s: Slot, i | i in Members(r, s)
      ensures !IsTrigger(i)
    {
      NormalizeMembers(FormRoot(name, xmlns), qs, s);
      assert Members(FormRoot(name, xmlns), s) == multiset{};
      RoutedAllHasNoTrigger(qs, s, i);
    }
  }

  /** A form whose records carry no group attribute never fails: each
      record resolves to the root, whose `value` is None. */
  lemma {:induction false} UngroupedRecordsNeverFail(tree: Node, qs: seq<Question>)
    requires tree.info.FormInfo?
    requires forall k :: 0 <= k < |qs| ==> !Present(qs[k].groupHint)
    ensures Normalize(tree, qs).Success?
    decreases |qs|
  {
    if |qs| != 0 {
      var t := PlaceRecord(tree, qs[0]).value;
      assert t.info == tree.info;
      UngroupedRecordsNeverFail(t, qs[1..]);
    }
  }
}
