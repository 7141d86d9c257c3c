/** `JSON::Root` and `JSON::Value`, the facade through which requests and replies are read and written. */
module Facade {
  import opened Bytes
  import opened JsonTree
  import opened Render
  import opened Compare
  import Grammar
  import Language
  import Parser
  import Printer
  import RoundTrip

  // ---------- what an assignment adds

  /** An assigned value; a Root counts for the trees it holds when it is assigned. */
  datatype Assigned =
    | AnInt(n: int32)
    | ABool(b: bool)
    | AString(s: seq<byte>)
    | ARoot(read: Option<Json>, written: Option<seq<Member>>)
    | AList(roots: seq<Option<seq<Member>>>)

  datatype Assignment = Assignment(key: CString, value: Assigned)

  /** The objects of the Roots in a list; one without a write tree adds nothing. */
  function Objects(roots: seq<Option<seq<Member>>>): seq<Json> {
    if roots == [] then []
    else (if roots[0].Some? then [Obj(roots[0].value)] else []) + Objects(roots[1..])
  }

  /** How many of the first `k` Roots have a write tree. */
  function WrittenBefore(roots: seq<Option<seq<Member>>>, k: nat): (n: nat)
    requires k <= |roots|
    ensures n <= k
  {
    if k == 0 then 0 else WrittenBefore(roots, k - 1) + if roots[k - 1].Some? then 1 else 0
  }

  /**
    The items stand for the Roots that have a write tree, one for each and in their order: the
    members of Root `k` are those of the item whose index is the number of such Roots before it.
   */
  ghost predicate ListsObjects(roots: seq<Option<seq<Member>>>, items: seq<Json>) {
    && |items| == WrittenBefore(roots, |roots|)
    && forall k :: 0 <= k < |roots| && roots[k].Some? ==>
         WrittenBefore(roots, k) < |items| && items[WrittenBefore(roots, k)] == Obj(roots[k].value)
  }

  lemma {:induction false} WrittenBeforeTail(roots: seq<Option<seq<Member>>>, k: nat)
    requires 0 < k <= |roots|
    ensures WrittenBefore(roots, k) == (if roots[0].Some? then 1 else 0) + WrittenBefore(roots[1..], k - 1)
    decreases k
  {
    if k > 1 {
      WrittenBeforeTail(roots, k - 1);
      assert roots[1..][k - 2] == roots[k - 1];
    } else {
      assert WrittenBefore(roots, 0) == 0;
    }
  }

  /** The list of objects that `Objects` gives is the one described by the indices. */
  lemma {:induction false} ObjectsAreListed(roots: seq<Option<seq<Member>>>)
    ensures ListsObjects(roots, Objects(roots))
    decreases |roots|
  {
    if roots != [] {
      var rest := roots[1..];
      ObjectsAreListed(rest);
      WrittenBeforeTail(roots, |roots|);
      forall k | 0 <= k < |roots| && roots[k].Some?
        ensures WrittenBefore(roots, k) < |Objects(roots)|
        ensures Objects(roots)[WrittenBefore(roots, k)] == Obj(roots[k].value)
      {
        if k > 0 {
          WrittenBeforeTail(roots, k);
          assert rest[k - 1] == roots[k];
        }
      }
    }
  }

  /** Without a Root that was parsed, item `i` holds the members of Root `i`. */
  lemma AllAreListed(roots: seq<Option<seq<Member>>>, items: seq<Json>)
    requires forall k :: 0 <= k < |roots| ==> roots[k].Some?
    requires ListsObjects(roots, items)
    ensures |items| == |roots| && forall i :: 0 <= i < |roots| ==> items[i] == Obj(roots[i].value)
  {
    var n := 0;
    while n < |roots|
      invariant n <= |roots| && forall k :: 0 <= k <= n ==> WrittenBefore(roots, k) == k
    {
      n := n + 1;
    }
  }

  /** The trees added under the key, in order: none, one, or both trees of a Root. */
  function Trees(value: Assigned): seq<Json> {
    match value
    case AnInt(n) => [Number(n)]
    case ABool(b) => [if b then True else False]
    case AString(s) => [Str(UpToNul(s))]
    case ARoot(read, written) =>
      (if read.Some? then [read.value] else []) + (if written.Some? then [Obj(written.value)] else [])
    case AList(roots) => [Arr(Objects(roots))]
  }

  function Named(key: CString, trees: seq<Json>): (members: seq<Member>)
    ensures |members| == |trees|
    ensures forall i :: 0 <= i < |trees| ==> members[i] == Member(key, trees[i])
  {
    if trees == [] then [] else [Member(key, trees[0])] + Named(key, trees[1..])
  }

  function Added(a: Assignment): seq<Member> {
    Named(a.key, Trees(a.value))
  }

  /** The members of the object that a history of assignments builds. */
  function AllAdded(history: seq<Assignment>): seq<Member> {
    if history == [] then [] else AllAdded(history[..|history| - 1]) + Added(history[|history| - 1])
  }

  // ---------- readers

  /** `cJSON_GetObjectItem` on a read tree, if there is one. */
  function Lookup(root: Option<Json>, key: CString): Option<Json> {
    match root
    case Some(Obj(members)) =>
      var i := Find(members, key, false);
      if i < |members| then Some(members[i].value) else None
    case _ => None
  }

  function AsInt(node: Option<Json>): int32 {
    if node.Some? && node.value.Number? then node.value.n else 0
  }

  function AsString(node: Option<Json>): CString {
    if node.Some? && node.value.Str? then node.value.text else []
  }

  predicate AsBool(node: Option<Json>) {
    node == Some(True)
  }

  function AsJson(node: Option<Json>): Option<Json> {
    if node.Some? && node.value.Obj? then node else None
  }

  /** None stands for the exception that an item without a string value causes. */
  function AsStringArray(node: Option<Json>): Option<seq<CString>> {
    if node.Some? && node.value.Arr? then Texts(node.value.items) else Some([])
  }

  function Texts(items: seq<Json>): (r: Option<seq<CString>>)
    ensures r.Some? <==> forall i :: 0 <= i < |items| ==> items[i].Str?
    ensures r.Some? ==> |r.value| == |items| && forall i :: 0 <= i < |items| ==> items[i] == Str(r.value[i])
  {
    if items == [] then Some([])
    else if !items[0].Str? then None
    else
      match Texts(items[1..])
      case Some(rest) => Some([items[0].text] + rest)
      case None => None
  }

  // ---------- the objects

  /** A cJSON object that is being built; `history` records how. */
  class WriteObject {
    var members: seq<Member>
    ghost var history: seq<Assignment>

    constructor ()
      ensures members == [] && history == []
    {
      members, history := [], [];
    }

    constructor Copy(other: WriteObject)
      ensures members == other.members && history == other.history
    {
      members, history := other.members, other.history;
    }

    ghost predicate Valid()
      reads this
    {
      members == AllAdded(history)
    }

    /** One `cJSON_AddItemToObject`, or several for the same assignment. */
    method Add(key: CString, trees: seq<Json>)
      modifies this`members
      ensures members == old(members) + Named(key, trees)
    {
      ghost var before := members;
      for i := 0 to |trees|
        invariant members == before + Named(key, trees)[..i]
      {
        members := members + [Member(key, trees[i])];
      }
    }

    ghost method Record(a: Assignment)
      requires members == AllAdded(history) + Added(a)
      modifies this`history
      ensures history == old(history) + [a] && Valid()
    {
      history := history + [a];
    }
  }

  class Value {
    const root: WriteObject?
    const node: Option<Json>
    const key: CString

    constructor (root: WriteObject?, node: Option<Json>, key: CString)
      ensures this.root == root && this.node == node && this.key == key
    {
      this.root, this.node, this.key := root, node, key;
    }

    method AssignInt(value: int32)
      requires root != null ==> root.Valid()
      modifies root
      ensures root != null ==> root.Valid() && root.history == old(root.history) + [Assignment(key, AnInt(value))]
      ensures root != null ==> root.members == old(root.members) + [Member(key, Number(value))]
    {
      if root != null {
        root.Add(key, [Number(value)]);
        root.Record(Assignment(key, AnInt(value)));
      }
    }

    method AssignBool(value: bool)
      requires root != null ==> root.Valid()
      modifies root
      ensures root != null ==> root.Valid() && root.history == old(root.history) + [Assignment(key, ABool(value))]
      ensures root != null ==> root.members == old(root.members) + [Member(key, if value then True else False)]
    {
      if root != null {
        root.Add(key, [if value then True else False]);
        root.Record(Assignment(key, ABool(value)));
      }
    }

    /** The string goes through `c_str`, which ends at the first NUL. */
    method AssignString(value: seq<byte>)
      requires root != null ==> root.Valid()
      modifies root
      ensures root != null ==> root.Valid() && root.history == old(root.history) + [Assignment(key, AString(value))]
      ensures root != null ==> root.members == old(root.members) + [Member(key, Str(UpToNul(value)))]
    {
      if root != null {
        root.Add(key, [Str(UpToNul(value))]);
        root.Record(Assignment(key, AString(value)));
      }
    }

    /**
      Adds copies of both trees of the Root, the read tree first. When the Root is the one being
      written, the copy of its write tree already holds that first addition.
     */
    method AssignRoot(value: Root)
      requires root != null ==> root.Valid()
      modifies root
      ensures root != null ==>
                var first: seq<Member> := if value.readRoot.Some? then [Member(key, value.readRoot.value)] else [];
                var written := if value.writeRoot == root then Some(old(root.members) + first)
                               else old(value.Written());
                root.members ==
                  old(root.members) + first + if written.Some? then [Member(key, Obj(written.value))] else []
      ensures root != null && value.writeRoot != root ==>
                && root.Valid()
                && root.history == old(root.history) + [Assignment(key, ARoot(value.readRoot, value.Written()))]
      ensures root != null && value.writeRoot == root ==>
                && root.Valid()
                && var first := if value.readRoot.Some? then [Member(key, value.readRoot.value)] else [];
                   root.history ==
                     old(root.history) + [Assignment(key, ARoot(value.readRoot, Some(old(root.members) + first)))]
    {
      hide AllAdded, Named, Added;
      if root != null {
        AddCopy(key, value.readRoot);
        ghost var written := value.Written();
        AddCopy(key, if value.writeRoot != null then Some(Obj(value.writeRoot.members)) else None);
        TreesOfRoot(key, value.readRoot, written);
        root.Record(Assignment(key, ARoot(value.readRoot, written)));
      }
    }

    /** Adding a null item does nothing. */
    method AddCopy(key: CString, tree: Option<Json>)
      requires root != null
      modifies root`members
      ensures root.members == old(root.members) + if tree.Some? then [Member(key, tree.value)] else []
    {
      if tree.Some? {
        root.Add(key, [tree.value]);
      }
    }

    /** The read trees of the listed Roots are not looked at. */
    method AssignList(roots: seq<Root>)
      requires root != null ==> root.Valid()
      modifies root
      ensures root != null ==>
                && |root.members| == |old(root.members)| + 1 && root.members[..|old(root.members)|] == old(root.members)
                && var added := root.members[|old(root.members)|];
                   added.key == key && added.value.Arr? && ListsObjects(old(AllWritten(roots)), added.value.items)
      ensures root != null ==>
                root.Valid() && root.history == old(root.history) + [Assignment(key, AList(old(AllWritten(roots))))]
    {
      hide AllWritten, ListsObjects, Objects, AllAdded, Added, Named;
      ghost var written := AllWritten(roots);
      ObjectsAreListed(written);
      var items := CopyObjects(roots);
      ListIsAdded(key, written);
      if root != null {
        root.Add(key, [Arr(items)]);
        root.Record(Assignment(key, AList(written)));
      }
    }

    /** Reads the members of an array one by one; the first item that is no string throws. */
    method ReadStringArray() returns (texts: Option<seq<CString>>)
      ensures texts == AsStringArray(node)
    {
      if node.None? || !node.value.Arr? {
        return Some([]);
      }
      var items := node.value.items;
      var result := [];
      for i := 0 to |items|
        invariant |result| == i && forall k :: 0 <= k < i ==> items[k] == Str(result[k])
      {
        if !items[i].Str? {
          return None;
        }
        result := result + [items[i].text];
      }
      assert result == Texts(items).value;
      return Some(result);
    }

    /** A Root of its own that holds a copy of the node. */
    method ReadJson() returns (copy: Root)
      ensures fresh(copy) && copy.readRoot == AsJson(node) && copy.writeRoot == null
    {
      copy := new Root();
      if node.Some? && node.value.Obj? {
        copy.readRoot := Some(node.value);
      }
    }
  }

  method CopyObjects(roots: seq<Root>) returns (items: seq<Json>)
    ensures items == Objects(AllWritten(roots))
  {
    hide AllWritten;
    ghost var written := AllWritten(roots);
    items := [];
    for i := 0 to |roots|
      invariant items + Objects(written[i..]) == Objects(written)
    {
      assert written[i..][0] == roots[i].Written() && written[i..][1..] == written[i + 1..];
      if roots[i].writeRoot != null {
        items := items + [Obj(roots[i].writeRoot.members)];
      }
    }
  }

  lemma ListIsAdded(key: CString, roots: seq<Option<seq<Member>>>)
    ensures Added(Assignment(key, AList(roots))) == Named(key, [Arr(Objects(roots))])
    ensures Named(key, [Arr(Objects(roots))]) == [Member(key, Arr(Objects(roots)))]
  {
  }

  lemma TreesOfRoot(key: CString, read: Option<Json>, written: Option<seq<Member>>)
    ensures Added(Assignment(key, ARoot(read, written))) ==
            (if read.Some? then [Member(key, read.value)] else [])
            + if written.Some? then [Member(key, Obj(written.value))] else []
  {
  }

  /** A tree that was parsed, for reading, and an object that is being built, for writing. */
  class Root {
    var readRoot: Option<Json>
    var writeRoot: WriteObject?

    constructor ()
      ensures readRoot == None && writeRoot == null
    {
      readRoot, writeRoot := None, null;
    }

    /** The copy shares nothing with the original: later writes to one are not seen in the other. */
    constructor Copy(other: Root)
      ensures readRoot == other.readRoot && Written() == other.Written()
      ensures writeRoot != null ==> fresh(writeRoot) && writeRoot.history == other.writeRoot.history
    {
      readRoot := other.readRoot;
      writeRoot := null;
      new;
      if other.writeRoot != null {
        writeRoot := new WriteObject.Copy(other.writeRoot);
      }
    }

    function Written(): Option<seq<Member>>
      reads this, writeRoot
    {
      if writeRoot == null then None else Some(writeRoot.members)
    }

    predicate IsValid()
      reads this
    {
      readRoot.Some?
    }

    method Clear()
      modifies this
      ensures readRoot == None && writeRoot == null && !IsValid()
    {
      readRoot := None;
      writeRoot := null;
    }

    /** Up to the first NUL of the text, with anything allowed after the value; an empty text gives no tree. */
    static method Parse(json: seq<byte>) returns (root: Root)
      ensures fresh(root) && root.writeRoot == null
      ensures root.readRoot == ParsedTree(json)
      ensures root.IsValid() <==> json != [] && Grammar.Parse(UpToNul(json), false).Ok?
    {
      root := new Root();
      if |json| > 0 {
        var ok, tree, position := Parser.ParseWithOpts(UpToNul(json), false);
        if ok {
          root.readRoot := Some(tree);
        }
      }
    }

    static method Write(root: Root) returns (text: seq<byte>)
      ensures text == if root.Written().Some? && |Text(Obj(root.Written().value), false, 0)| + 2 <= INT_MAX
                      then Text(Obj(root.Written().value), false, 0) else []
    {
      text := [];
      if root.writeRoot != null {
        var tree := Obj(root.writeRoot.members);
        var ok, printed := Printer.Print(tree, false, true);
        if ok {
          TextIsNulFree(tree, false, 0);
          text := UpToNul(printed[..]);
          NulEnds(Text(tree, false, 0));
        }
      }
    }

    /** For reading when there is a read tree, and otherwise for writing, into an object made on first use. */
    method At(key: CString) returns (value: Value)
      modifies this`writeRoot
      ensures fresh(value) && value.key == (if readRoot.Some? then [] else key)
      ensures readRoot.Some? ==>
                value.node == Lookup(readRoot, key) && value.root == null && writeRoot == old(writeRoot)
      ensures readRoot.Some? ==> IsFirstValue(readRoot.value, key, value.node)
      ensures readRoot.None? ==> value.node == None && value.root == writeRoot && writeRoot != null
      ensures readRoot.None? && old(writeRoot) != null ==> writeRoot == old(writeRoot)
      ensures readRoot.None? && old(writeRoot) == null ==>
                fresh(writeRoot) && writeRoot.history == [] && writeRoot.Valid()
    {
      if readRoot.Some? {
        var node: Option<Json> := None;
        if readRoot.value.Obj? {
          var item := GetObjectItem(readRoot.value.members, key, false);
          node := if item.Some? then Some(item.value.value) else None;
        }
        value := new Value(null, node, []);
      } else {
        if writeRoot == null {
          writeRoot := new WriteObject();
        }
        value := new Value(writeRoot, None, key);
      }
    }
  }

  /** The value of the first member whose key is `key` but for the case of ASCII letters, or none. */
  ghost predicate IsFirstValue(tree: Json, key: CString, node: Option<Json>) {
    if tree.Obj? && node.Some? then
      exists i ::
        && 0 <= i < |tree.members| && node.value == tree.members[i].value && SameButCase(key, tree.members[i].key)
        && forall k :: 0 <= k < i ==> !SameButCase(key, tree.members[k].key)
    else
      node.None? && (tree.Obj? ==> forall k :: 0 <= k < |tree.members| ==> !SameButCase(key, tree.members[k].key))
  }

  ghost function AllWritten(roots: seq<Root>): (written: seq<Option<seq<Member>>>)
    reads roots, set r | r in roots && r.writeRoot != null :: r.writeRoot
    ensures |written| == |roots| && forall k :: 0 <= k < |roots| ==> written[k] == roots[k].Written()
  {
    if roots == [] then [] else [roots[0].Written()] + AllWritten(roots[1..])
  }

  function ParsedTree(json: seq<byte>): Option<Json> {
    if json == [] then None
    else
      match Grammar.Parse(UpToNul(json), false)
      case Ok(tree, _) => Some(tree)
      case Bad(_) => None
  }

  /** The tree of a Root that was parsed: the text of it stands at the start, anything may follow, a NUL ends it all. */
  lemma ParsedExactly(json: seq<byte>, tree: Json)
    ensures Grammar.Terminated(UpToNul(json) + [NUL])
    ensures ParsedTree(json) == Some(tree) <==>
              Nesting(tree) <= 1000 &&
              exists i: nat, j: nat ::
                Language.IsStart(UpToNul(json), i) && Language.IsText(UpToNul(json) + [NUL], i, j, tree)
  {
    hide Grammar.Parse, Nesting, Language.IsText, Language.IsStart;
    var text := UpToNul(json);
    var r := Grammar.Parse(text, false);
    Language.AcceptedExactly(text, tree, if r.Ok? then r.next else 0);
    EmptyTextHasNoStart();
    forall i: nat, j: nat |
      Language.IsStart(text, i) && Language.IsText(text + [NUL], i, j, tree) && Nesting(tree) <= 1000
      ensures r == Grammar.Parsed.Ok(tree, j)
    {
      Language.AcceptedExactly(text, tree, j);
    }
  }

  lemma EmptyTextHasNoStart()
    ensures forall i: nat :: !Language.IsStart([], i)
  {
  }

  lemma {:induction false} NulEnds(text: CString)
    ensures UpToNul(text + [NUL]) == text
  {
    if text != [] {
      assert (text + [NUL])[1..] == text[1..] + [NUL];
      NulEnds(text[1..]);
    }
  }

  // ---------- what readers see of a history of assignments

  lemma {:induction false} FindAppend(a: seq<Member>, b: seq<Member>, key: CString)
    ensures Find(a + b, key, false) ==
            if Find(a, key, false) < |a| then Find(a, key, false) else |a| + Find(b, key, false)
  {
    if a == [] {
      assert a + b == b;
    } else {
      assert (a + b)[1..] == a[1..] + b;
      FindAppend(a[1..], b, key);
    }
  }

  lemma FindNamed(name: CString, trees: seq<Json>, key: CString)
    ensures Find(Named(name, trees), key, false) == if KeyMatches(key, name, false) then 0 else |trees|
  {
    var members := Named(name, trees);
    var i := Find(members, key, false);
    if i < |members| {
      assert KeyMatches(key, members[i].key, false);
      assert members[0].key == name;
    }
  }

  function Seen(history: seq<Assignment>, key: CString): Option<Json> {
    Lookup(Some(Obj(AllAdded(history))), key)
  }

  /** A further assignment is seen under a key exactly if nothing was seen there before: the first one wins. */
  lemma AssignmentIsSeenIfKeyIsNew(history: seq<Assignment>, a: Assignment, key: CString)
    ensures Seen(history + [a], key) ==
            if Seen(history, key).Some? then Seen(history, key)
            else if KeyMatches(key, a.key, false) && Trees(a.value) != [] then Some(Trees(a.value)[0])
            else None
  {
    assert (history + [a])[..|history|] == history;
    FindAppend(AllAdded(history), Added(a), key);
    FindNamed(a.key, Trees(a.value), key);
  }

  /** The first assignment under a key that adds anything is the one readers see. */
  lemma {:induction false} FirstAssignmentIsSeen(history: seq<Assignment>, k: nat)
    requires k < |history| && Trees(history[k].value) != []
    requires forall j :: 0 <= j < k && KeyMatches(history[k].key, history[j].key, false) ==>
               Trees(history[j].value) == []
    ensures Seen(history, history[k].key) == Some(Trees(history[k].value)[0])
    decreases |history|
  {
    var n := |history| - 1;
    assert history == history[..n] + [history[n]];
    AssignmentIsSeenIfKeyIsNew(history[..n], history[n], history[k].key);
    if k < n {
      FirstAssignmentIsSeen(history[..n], k);
    } else {
      NothingIsSeen(history[..n], history[n].key);
    }
  }

  lemma {:induction false} NothingIsSeen(history: seq<Assignment>, key: CString)
    requires forall j :: 0 <= j < |history| && KeyMatches(key, history[j].key, false) ==> Trees(history[j].value) == []
    ensures Seen(history, key) == None
    decreases |history|
  {
    if history != [] {
      var n := |history| - 1;
      assert history == history[..n] + [history[n]];
      AssignmentIsSeenIfKeyIsNew(history[..n], history[n], key);
      NothingIsSeen(history[..n], key);
    }
  }

  /** What the reader of its type gives back for an assigned value. */
  ghost predicate ReadsAs(value: Assigned, node: Option<Json>) {
    match value
    case AnInt(n) => AsInt(node) == n
    case ABool(b) => AsBool(node) == b
    case AString(s) => AsString(node) == UpToNul(s)
    case ARoot(read, written) =>
      if read.Some? then AsJson(node) == if read.value.Obj? then read else None
      else AsJson(node) == if written.Some? then Some(Obj(written.value)) else None
    case AList(roots) =>
      node.Some? && node.value.Arr? && ListsObjects(roots, node.value.items)
      && (AsStringArray(node) == None <==> node.value.items != [])
  }

  predicate KeysAreDistinct(history: seq<Assignment>) {
    forall i, j :: 0 <= i < j < |history| ==> !KeyMatches(history[j].key, history[i].key, false)
  }

  datatype Reader = IntReader | BoolReader | StringReader | JsonReader | ListReader

  /** What a reader gives for a value that is missing or of another type. */
  predicate ReadsNothing(reader: Reader, node: Option<Json>) {
    match reader
    case IntReader => AsInt(node) == 0
    case BoolReader => !AsBool(node)
    case StringReader => AsString(node) == []
    case JsonReader => AsJson(node) == None
    case ListReader => AsStringArray(node) == Some([])
  }

  /** The readers of the type of an assigned value; a Root may hold a value of any type. */
  predicate IsMeantFor(reader: Reader, value: Assigned) {
    match value
    case AnInt(_) => reader.IntReader?
    case ABool(_) => reader.BoolReader?
    case AString(_) => reader.StringReader?
    case ARoot(_, _) => true
    case AList(_) => reader.ListReader?
  }

  /** Under a key that no assignment has, not even in other letter case, every reader reads nothing. */
  lemma AbsentKeyReadsNothing(history: seq<Assignment>, key: CString, reader: Reader)
    requires forall j :: 0 <= j < |history| ==> !SameButCase(key, history[j].key)
    ensures ReadsNothing(reader, Seen(history, key))
  {
    forall j | 0 <= j < |history|
      ensures !KeyMatches(key, history[j].key, false)
    {
      KeysMatchExactlyButForCase(key, history[j].key);
    }
    NothingIsSeen(history, key);
  }

  /** The readers of the other types read nothing from what was assigned. */
  lemma OtherReadersReadNothing(history: seq<Assignment>, k: nat, reader: Reader)
    requires KeysAreDistinct(history) && k < |history| && !IsMeantFor(reader, history[k].value)
    ensures ReadsNothing(reader, Seen(history, history[k].key))
  {
    FirstAssignmentIsSeen(history, k);
  }

  lemma {:induction false} ObjectsAreObjects(roots: seq<Option<seq<Member>>>)
    ensures forall i :: 0 <= i < |Objects(roots)| ==> Objects(roots)[i].Obj?
  {
    if roots != [] {
      ObjectsAreObjects(roots[1..]);
    }
  }

  /**
    Assign, write, parse, read: with keys that differ in more than the case of their letters, every
    assigned value is read back, provided the nesting is at most 1000; otherwise nothing parses.
   */
  lemma AssignmentsReadBack(history: seq<Assignment>)
    requires KeysAreDistinct(history)
    ensures var written := Obj(AllAdded(history));
            var parsed := ParsedTree(Text(written, false, 0));
            && (Nesting(written) <= NESTING_LIMIT <==> parsed == Some(written))
            && (Nesting(written) > NESTING_LIMIT <==> parsed == None)
            && (parsed.Some? ==>
                  forall k :: 0 <= k < |history| ==> ReadsAs(history[k].value, Lookup(parsed, history[k].key)))
  {
    var written := Obj(AllAdded(history));
    WriteParses(written);
    forall k | 0 <= k < |history|
      ensures ReadsAs(history[k].value, Seen(history, history[k].key))
    {
      AssignmentReadsAs(history, k);
    }
  }

  lemma WriteParses(tree: Json)
    ensures ParsedTree(Text(tree, false, 0)) == if Nesting(tree) <= NESTING_LIMIT then Some(tree) else None
  {
    RoundTrip.PrintParseRoundTrip(tree, false, false);
    TextNotEmpty(tree, false, 0);
  }

  lemma AssignmentReadsAs(history: seq<Assignment>, k: nat)
    requires KeysAreDistinct(history) && k < |history|
    ensures ReadsAs(history[k].value, Seen(history, history[k].key))
  {
    var value := history[k].value;
    if Trees(value) == [] {
      NothingIsSeen(history, history[k].key);
    } else {
      FirstAssignmentIsSeen(history, k);
      if value.AList? {
        ObjectsAreObjects(value.roots);
        ObjectsAreListed(value.roots);
      }
    }
  }
}
