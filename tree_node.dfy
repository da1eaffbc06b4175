/**
 * The classification node of a tree-ensemble model: its class-distribution
 * payload, the payload's stream codec, the one-hot distribution synthesised
 * when only the majority class is kept, and the conversion into the legacy
 * single-tree node representation with pre-order id numbering.
 *
 * Distribution entries are modelled as `real`: the node only copies and
 * compares them.  The binary stream is a sequence of typed tokens.
 */
module TreeNodeClassification {
  import opened Outcomes

  // ---------------------------------------------------------------------------
  // Data model
  // ---------------------------------------------------------------------------

  /** The split condition routing a record into a node; owned by the base node type and kept opaque. */
  datatype Condition = Condition(description: string)

  /** What the base tree-node type contributes to a node: its signature (child-index path from the root),
      the condition leading into it (absent at the root) and the index of the attribute it splits on. */
  datatype Frame = Frame(signature: seq<nat>, condition: Option<Condition>, splitAttributeIndex: int)

  /** A classification node.  `targetDistribution` is `None` in compact mode, where only the majority
      index is kept. */
  datatype Node = Node(frame: Frame, children: seq<Node>, majorityIndex: int, targetDistribution: Option<seq<real>>)

  /** The class distribution observed at a node during learning, with its majority index. */
  datatype Priors = Priors(distribution: seq<real>, majorityIndex: int)

  /** Names of the attributes and of the nominal target values, in table order. */
  datatype TreeMetaData = TreeMetaData(attributeNames: seq<string>, targetValues: seq<string>)

  /** What the Java code throws: an index error when an index does not fit the table it selects from,
      and a null dereference when a child has no condition. */
  datatype NodeError = OutOfRange(index: int) | MissingCondition

  /** Failures of the input stream: a truncated stream, or a token of the wrong kind. */
  datatype StreamError = EndOfStream | UnexpectedToken

  /** Token of the binary stream.  The framing written by the base node type is not part of this model. */
  datatype Token = DoubleToken(d: real) | IntToken(i: int)

  // ---------------------------------------------------------------------------
  // Construction and accessors
  // ---------------------------------------------------------------------------

  /** The learner's constructor: the distribution is kept only when the configuration asks to save
      distributions in nodes; the majority index always comes from the priors. */
  function Create(frame: Frame, priors: Priors, children: seq<Node>, saveTargetDistributionInNodes: bool): Node
  {
    Node(frame, children, priors.majorityIndex,
         if saveTargetDistributionInNodes then Some(priors.distribution) else None)
  }

  /** `getTargetDistribution`: the stored distribution, or else a one-hot vector over the target values. */
  function TargetDistribution(n: Node, targetLength: nat): (r: Result<seq<real>, NodeError>)
    ensures n.targetDistribution.Some? ==> r == Ok(n.targetDistribution.value)
    ensures n.targetDistribution.None? && 0 <= n.majorityIndex < targetLength ==>
              && r.Ok? && |r.value| == targetLength
              && r.value[n.majorityIndex] == 1.0
              && forall i :: 0 <= i < targetLength && i != n.majorityIndex ==> r.value[i] == 0.0
    ensures n.targetDistribution.None? && !(0 <= n.majorityIndex < targetLength) ==>
              r == Err(OutOfRange(n.majorityIndex))
  {
    match n.targetDistribution
    case Some(d) => Ok(d)
    case None =>
      if 0 <= n.majorityIndex < targetLength then
        Ok(seq(targetLength, i => if i == n.majorityIndex then 1.0 else 0.0))
      else
        Err(OutOfRange(n.majorityIndex))
  }

  /** `getMajorityClassName`: the target value at the majority index. */
  function MajorityClassName(n: Node, targetValues: seq<string>): (r: Result<string, NodeError>)
    ensures r.Ok? <==> 0 <= n.majorityIndex < |targetValues|
    ensures r.Ok? ==> r.value == targetValues[n.majorityIndex]
  {
    if 0 <= n.majorityIndex < |targetValues| then Ok(targetValues[n.majorityIndex])
    else Err(OutOfRange(n.majorityIndex))
  }

  /** A node built from priors exposes the priors' distribution when distributions are saved, and a
      one-hot vector at the priors' majority index otherwise; its majority class is the priors'. */
  lemma CreateExposesPriors(frame: Frame, priors: Priors, children: seq<Node>, save: bool, targetValues: seq<string>)
    requires 0 <= priors.majorityIndex < |targetValues|
    ensures var n := Create(frame, priors, children, save);
            && MajorityClassName(n, targetValues) == Ok(targetValues[priors.majorityIndex])
            && (save ==> TargetDistribution(n, |targetValues|) == Ok(priors.distribution))
            && (!save ==> TargetDistribution(n, |targetValues|) ==
                            Ok(seq(|targetValues|, i => if i == priors.majorityIndex then 1.0 else 0.0)))
  {
    var n := Create(frame, priors, children, save);
    if !save {
      var r := TargetDistribution(n, |targetValues|);
      assert r.value == seq(|targetValues|, i => if i == priors.majorityIndex then 1.0 else 0.0);
    }
  }

  // ---------------------------------------------------------------------------
  // Majority index: first index attaining the strict running maximum
  // ---------------------------------------------------------------------------

  /** The index a left-to-right scan with a strict `>` settles on: a later equal value never wins. */
  function FirstMaxIndex(d: seq<real>): (k: nat)
    requires |d| > 0
    ensures k < |d|
    ensures forall j :: 0 <= j < |d| ==> d[j] <= d[k]
    ensures forall j :: 0 <= j < k ==> d[j] < d[k]
    decreases |d|
  {
    if |d| == 1 then 0
    else
      var k := FirstMaxIndex(d[..|d| - 1]);
      if d[|d| - 1] > d[k] then |d| - 1 else k
  }

  /** The majority index the load constructor derives: -1 when there are no target values. */
  function MajorityOf(d: seq<real>): int
  {
    if |d| == 0 then -1 else FirstMaxIndex(d)
  }

  /** The two properties of `FirstMaxIndex` determine it: any index that is a maximum and beats every
      earlier entry strictly is the one the scan picks. */
  lemma FirstMaxIndexUnique(d: seq<real>, k: nat)
    requires k < |d|
    requires forall j :: 0 <= j < |d| ==> d[j] <= d[k]
    requires forall j :: 0 <= j < k ==> d[j] < d[k]
    ensures FirstMaxIndex(d) == k
  {
    var m := FirstMaxIndex(d);
    assert d[m] <= d[k];
    assert d[k] <= d[m];
  }

  /** With a tie for the maximum the first index wins, e.g. [0.4, 0.4, 0.2] gives 0. */
  lemma TieGoesToFirstIndex()
    ensures MajorityOf([0.4, 0.4, 0.2]) == 0
  {
    FirstMaxIndexUnique([0.4, 0.4, 0.2], 0);
  }

  // ---------------------------------------------------------------------------
  // Payload codec: specification
  // ---------------------------------------------------------------------------

  /** The payload a node contributes to the stream, as `saveInSubclass` writes it. */
  function PayloadTokens(n: Node): (ts: seq<Token>)
    ensures n.targetDistribution.Some? ==>
              |ts| == |n.targetDistribution.value| &&
              forall i :: 0 <= i < |ts| ==> ts[i] == DoubleToken(n.targetDistribution.value[i])
    ensures n.targetDistribution.None? ==> ts == [IntToken(n.majorityIndex)]
  {
    match n.targetDistribution
    case Some(d) => seq(|d|, i requires 0 <= i < |d| => DoubleToken(d[i]))
    case None => [IntToken(n.majorityIndex)]
  }

  /** Reading `count` doubles from the front of `ts`, failing at the first missing or non-double token. */
  function ReadDoubles(ts: seq<Token>, count: nat): (r: Result<seq<real>, StreamError>)
    ensures r.Ok? ==> |r.value| == count
  {
    if count == 0 then Ok([])
    else match ReadDoubles(ts, count - 1)
      case Err(e) => Err(e)
      case Ok(prefix) =>
        if count - 1 >= |ts| then Err(EndOfStream)
        else if !ts[count - 1].DoubleToken? then Err(UnexpectedToken)
        else Ok(prefix + [ts[count - 1].d])
  }

  /** The doubles are read exactly when the first `count` tokens are all doubles, and then they are
      those tokens' values in stream order. */
  lemma {:induction false} ReadDoublesReads(ts: seq<Token>, count: nat)
    ensures var r := ReadDoubles(ts, count);
            && (r.Ok? <==> count <= |ts| && forall i :: 0 <= i < count ==> ts[i].DoubleToken?)
            && (r.Ok? ==> forall i :: 0 <= i < count ==> ts[i] == DoubleToken(r.value[i]))
  {
    if count > 0 {
      ReadDoublesReads(ts, count - 1);
    }
  }

  /** The fields the load constructor fills in, with the number of tokens it consumed. */
  datatype Payload = Payload(majorityIndex: int, targetDistribution: Option<seq<real>>)

  /** The load constructor's reading of the payload, for a stream whose flag says whether class
      distributions are contained, and a target with `targetLength` values. */
  function DecodePayload(ts: seq<Token>, targetLength: nat, containsDistribution: bool): Result<(Payload, nat), StreamError>
  {
    if containsDistribution then
      match ReadDoubles(ts, targetLength)
      case Ok(d) => Ok((Payload(MajorityOf(d), Some(d)), targetLength))
      case Err(e) => Err(e)
    else if |ts| == 0 then Err(EndOfStream)
    else if !ts[0].IntToken? then Err(UnexpectedToken)
    else Ok((Payload(ts[0].i, None), 1))
  }

  /** In distribution mode the loader reads exactly as many values as there are target values, keeps them
      in read order, and re-derives the majority index as the first strict maximum. */
  lemma DistributionModeLoad(ts: seq<Token>, targetLength: nat)
    requires DecodePayload(ts, targetLength, true).Ok?
    ensures var (p, used) := DecodePayload(ts, targetLength, true).value;
            && used == targetLength
            && p.targetDistribution.Some?
            && |p.targetDistribution.value| == targetLength
            && (forall i :: 0 <= i < targetLength ==> ts[i] == DoubleToken(p.targetDistribution.value[i]))
            && (targetLength == 0 ==> p.majorityIndex == -1)
            && (targetLength > 0 ==>
                  && 0 <= p.majorityIndex < targetLength
                  && (forall j :: 0 <= j < targetLength ==> p.targetDistribution.value[j] <= p.targetDistribution.value[p.majorityIndex])
                  && (forall j :: 0 <= j < p.majorityIndex ==> p.targetDistribution.value[j] < p.targetDistribution.value[p.majorityIndex]))
  {
    ReadDoublesReads(ts, targetLength);
  }

  /** In compact mode the loader leaves the distribution absent and reads the majority index as one int. */
  lemma CompactModeLoad(ts: seq<Token>, targetLength: nat)
    requires DecodePayload(ts, targetLength, false).Ok?
    ensures DecodePayload(ts, targetLength, false).value == (Payload(ts[0].i, None), 1)
    ensures ts[0] == IntToken(ts[0].i)
  {
  }

  /** Reading doubles back from the tokens that encode them returns the same values. */
  lemma {:induction false} ReadDoublesOfEncoded(d: seq<real>, rest: seq<Token>, count: nat)
    requires count <= |d|
    ensures ReadDoubles(seq(|d|, i requires 0 <= i < |d| => DoubleToken(d[i])) + rest, count) == Ok(d[..count])
  {
    if count > 0 {
      ReadDoublesOfEncoded(d, rest, count - 1);
      assert d[..count] == d[..count - 1] + [d[count - 1]];
    }
  }

  /** Whether a node's stored payload survives a save/load cycle unchanged: in distribution mode the
      distribution must cover the target values and the majority index must be the one the loader
      re-derives. */
  predicate PayloadAgrees(n: Node, targetLength: nat)
  {
    n.targetDistribution.Some? ==>
      |n.targetDistribution.value| == targetLength && n.majorityIndex == MajorityOf(n.targetDistribution.value)
  }

  /** Round trip: loading what `saveInSubclass` wrote, with the stream flag matching the node's mode,
      restores the distribution exactly in distribution mode (and the re-derived majority index), and the
      majority index in compact mode; exactly the payload's tokens are consumed. */
  lemma SaveLoadRoundTrip(n: Node, rest: seq<Token>, targetLength: nat)
    requires n.targetDistribution.Some? ==> |n.targetDistribution.value| == targetLength
    ensures var loaded := DecodePayload(PayloadTokens(n) + rest, targetLength, n.targetDistribution.Some?);
            && loaded.Ok?
            && loaded.value.1 == |PayloadTokens(n)|
            && loaded.value.0.targetDistribution == n.targetDistribution
            && (n.targetDistribution.None? ==> loaded.value.0.majorityIndex == n.majorityIndex)
            && (n.targetDistribution.Some? ==> loaded.value.0.majorityIndex == MajorityOf(n.targetDistribution.value))
            && (PayloadAgrees(n, targetLength) ==>
                  loaded.value.0 == Payload(n.majorityIndex, n.targetDistribution))
  {
    match n.targetDistribution
    case Some(d) =>
      ReadDoublesOfEncoded(d, rest, |d|);
      assert d[..|d|] == d;
    case None =>
  }

  /** A node built from priors whose majority index is the first strict maximum survives the round trip
      in distribution mode. */
  lemma CreatedNodeAgrees(frame: Frame, priors: Priors, children: seq<Node>)
    requires |priors.distribution| > 0
    requires 0 <= priors.majorityIndex < |priors.distribution|
    requires forall j :: 0 <= j < |priors.distribution| ==> priors.distribution[j] <= priors.distribution[priors.majorityIndex]
    requires forall j :: 0 <= j < priors.majorityIndex ==> priors.distribution[j] < priors.distribution[priors.majorityIndex]
    ensures PayloadAgrees(Create(frame, priors, children, true), |priors.distribution|)
  {
    FirstMaxIndexUnique(priors.distribution, priors.majorityIndex);
  }

  /** Once the doubles fail to read, reading more of them fails the same way. */
  lemma {:induction false} ReadDoublesErrorPersists(ts: seq<Token>, i: nat, count: nat)
    requires i <= count
    requires ReadDoubles(ts, i).Err?
    ensures ReadDoubles(ts, count) == ReadDoubles(ts, i)
    decreases count - i
  {
    if i < count {
      ReadDoublesErrorPersists(ts, i, count - 1);
    }
  }

  // ---------------------------------------------------------------------------
  // Payload codec: the stream classes and the imperative save and load
  // ---------------------------------------------------------------------------

  /** The output stream, seen as the tokens written so far. */
  class DataOutputStream {
    var written: seq<Token>

    constructor ()
      ensures written == []
    {
      written := [];
    }

    method WriteDouble(d: real)
      modifies this
      ensures written == old(written) + [DoubleToken(d)]
    {
      written := written + [DoubleToken(d)];
    }

    method WriteInt(v: int)
      modifies this
      ensures written == old(written) + [IntToken(v)]
    {
      written := written + [IntToken(v)];
    }
  }

  /** The input stream: fixed tokens, a read position, and the stream-level flag saying whether class
      distributions are contained in the nodes. */
  class TreeModelDataInputStream {
    const tokens: seq<Token>
    const containsClassDistribution: bool
    var pos: nat

    ghost predicate Valid()
      reads this
    {
      pos <= |tokens|
    }

    constructor (tokens: seq<Token>, containsClassDistribution: bool)
      ensures Valid()
      ensures this.tokens == tokens && this.containsClassDistribution == containsClassDistribution && pos == 0
    {
      this.tokens := tokens;
      this.containsClassDistribution := containsClassDistribution;
      pos := 0;
    }

    method ReadDouble() returns (r: Result<real, StreamError>)
      requires Valid()
      modifies this
      ensures Valid()
      ensures old(pos) >= |tokens| ==> r == Err(EndOfStream) && pos == old(pos)
      ensures old(pos) < |tokens| && !tokens[old(pos)].DoubleToken? ==> r == Err(UnexpectedToken) && pos == old(pos)
      ensures old(pos) < |tokens| && tokens[old(pos)].DoubleToken? ==>
                r == Ok(tokens[old(pos)].d) && pos == old(pos) + 1
    {
      if pos >= |tokens| {
        r := Err(EndOfStream);
      } else if !tokens[pos].DoubleToken? {
        r := Err(UnexpectedToken);
      } else {
        r := Ok(tokens[pos].d);
        pos := pos + 1;
      }
    }

    method ReadInt() returns (r: Result<int, StreamError>)
      requires Valid()
      modifies this
      ensures Valid()
      ensures old(pos) >= |tokens| ==> r == Err(EndOfStream) && pos == old(pos)
      ensures old(pos) < |tokens| && !tokens[old(pos)].IntToken? ==> r == Err(UnexpectedToken) && pos == old(pos)
      ensures old(pos) < |tokens| && tokens[old(pos)].IntToken? ==>
                r == Ok(tokens[old(pos)].i) && pos == old(pos) + 1
    {
      if pos >= |tokens| {
        r := Err(EndOfStream);
      } else if !tokens[pos].IntToken? {
        r := Err(UnexpectedToken);
      } else {
        r := Ok(tokens[pos].i);
        pos := pos + 1;
      }
    }
  }

  /** `saveInSubclass`: writes the stored distribution in index order, or else the majority index. */
  method SaveInSubclass(n: Node, out: DataOutputStream)
    modifies out
    ensures out.written == old(out.written) + PayloadTokens(n)
  {
    if n.targetDistribution.Some? {
      var d := n.targetDistribution.value;
      for i := 0 to |d|
        invariant out.written == old(out.written) + PayloadTokens(n)[..i]
      {
        assert PayloadTokens(n)[..i + 1] == PayloadTokens(n)[..i] + [DoubleToken(d[i])];
        out.WriteDouble(d[i]);
      }
      assert PayloadTokens(n)[..|d|] == PayloadTokens(n);
    } else {
      out.WriteInt(n.majorityIndex);
    }
  }

  /** `load` (the private load constructor): after the base node type has read the node's frame and
      children, reads the payload: the distribution in distribution mode, the majority index otherwise. */
  method Load(input: TreeModelDataInputStream, frame: Frame, children: seq<Node>, metaData: TreeMetaData)
    returns (r: Result<Node, StreamError>)
    requires input.Valid()
    modifies input
    ensures input.Valid()
    ensures var decoded := DecodePayload(input.tokens[old(input.pos)..], |metaData.targetValues|, input.containsClassDistribution);
            && (decoded.Ok? ==>
                  && r == Ok(Node(frame, children, decoded.value.0.majorityIndex, decoded.value.0.targetDistribution))
                  && input.pos == old(input.pos) + decoded.value.1)
            && (decoded.Err? ==> r == Err(decoded.error))
  {
    var targetLength := |metaData.targetValues|;
    if input.containsClassDistribution {
      var read := ReadDistribution(input, targetLength);
      if read.Err? {
        return Err(read.error);
      }
      var (targetDistribution, majorityIndex) := read.value;
      r := Ok(Node(frame, children, majorityIndex, Some(targetDistribution)));
    } else {
      var read := input.ReadInt();
      if read.Err? {
        return Err(read.error);
      }
      r := Ok(Node(frame, children, read.value, None));
    }
  }

  /** The distribution loop of the load constructor: fills the distribution in read order while keeping a
      strict running maximum, starting from negative infinity and majority index -1. */
  method ReadDistribution(input: TreeModelDataInputStream, targetLength: nat)
    returns (r: Result<(seq<real>, int), StreamError>)
    requires input.Valid()
    modifies input
    ensures input.Valid()
    ensures var expected := ReadDoubles(input.tokens[old(input.pos)..], targetLength);
            && (expected.Ok? ==>
                  r == Ok((expected.value, MajorityOf(expected.value))) && input.pos == old(input.pos) + targetLength)
            && (expected.Err? ==> r == Err(expected.error))
  {
    ghost var ts := input.tokens[input.pos..];
    ghost var start := input.pos;
    var targetDistribution: seq<real> := [];
    var majorityIndex := -1;
    var max: Option<real> := None;   // negative infinity
    var i := 0;
    while i < targetLength
      invariant 0 <= i <= targetLength
      invariant input.Valid() && input.pos == start + i
      invariant ReadDoubles(ts, i) == Ok(targetDistribution)
      invariant majorityIndex == MajorityOf(targetDistribution)
      invariant max == if i == 0 then None else Some(targetDistribution[majorityIndex])
    {
      var next := input.ReadDouble();
      if next.Err? {
        ReadFailure(ts, i, targetDistribution);
        ReadDoublesErrorPersists(ts, i + 1, targetLength);
        return Err(next.error);
      }
      var d := next.value;
      ReadStep(ts, i, targetDistribution, d);
      MajorityStep(targetDistribution, d);
      if max.None? || d > max.value {
        majorityIndex := i;
        max := Some(d);
      }
      targetDistribution := targetDistribution + [d];
      i := i + 1;
    }
    r := Ok((targetDistribution, majorityIndex));
  }

  /** One more double read successfully extends the values read so far. */
  lemma ReadStep(ts: seq<Token>, i: nat, prefix: seq<real>, d: real)
    requires ReadDoubles(ts, i) == Ok(prefix)
    requires i < |ts| && ts[i] == DoubleToken(d)
    ensures ReadDoubles(ts, i + 1) == Ok(prefix + [d])
  {
  }

  /** A missing or non-double token after a good prefix is the error of the whole read. */
  lemma ReadFailure(ts: seq<Token>, i: nat, prefix: seq<real>)
    requires ReadDoubles(ts, i) == Ok(prefix)
    requires i >= |ts| || !ts[i].DoubleToken?
    ensures ReadDoubles(ts, i + 1) == Err(if i >= |ts| then EndOfStream else UnexpectedToken)
  {
  }

  /** The majority index after one more value: the new index exactly when the value beats the running
      maximum strictly (or is the first value). */
  lemma MajorityStep(prefix: seq<real>, d: real)
    ensures MajorityOf(prefix + [d]) ==
              if |prefix| == 0 || d > prefix[MajorityOf(prefix)] then |prefix| else MajorityOf(prefix)
  {
    assert (prefix + [d])[..|prefix|] == prefix;
  }

  // ---------------------------------------------------------------------------
  // Conversion to the legacy decision-tree node
  // ---------------------------------------------------------------------------

  /** The PMML predicate a child's condition converts to; kept opaque. */
  datatype PmmlPredicate = PmmlPredicate(condition: Condition)

  /** The legacy single-tree node: a leaf, or a split with one predicate per child. */
  datatype LegacyNode =
    | LegacyLeaf(id: int, majorityClass: string, scores: seq<(string, real)>)
    | LegacySplit(id: int, majorityClass: string, scores: seq<(string, real)>,
                  splitAttribute: string, predicates: seq<PmmlPredicate>, children: seq<LegacyNode>)

  /** What the conversion relies on: a valid majority index, a distribution no longer than the target value
      table, a split attribute on every inner node, and a condition on every child. */
  predicate Consistent(n: Node, metaData: TreeMetaData)
  {
    && 0 <= n.majorityIndex < |metaData.targetValues|
    && (n.targetDistribution.Some? ==> |n.targetDistribution.value| <= |metaData.targetValues|)
    && (|n.children| > 0 ==> 0 <= n.frame.splitAttributeIndex < |metaData.attributeNames|)
    && forall c :: c in n.children ==> c.frame.condition.Some? && Consistent(c, metaData)
  }

  /** Number of nodes in a subtree. */
  function Size(n: Node): nat
  {
    1 + SizeOfAll(n.children)
  }

  function SizeOfAll(cs: seq<Node>): nat
    decreases cs
  {
    if cs == [] then 0 else SizeOfAll(cs[..|cs| - 1]) + Size(cs[|cs| - 1])
  }

  /** Insertion into a map that keeps insertion order (a `LinkedHashMap`): an existing key keeps its
      position and gets the new value, a new key goes to the end. */
  function Put(m: seq<(string, real)>, k: string, v: real): (r: seq<(string, real)>)
    ensures (forall j :: 0 <= j < |m| ==> m[j].0 != k) ==> r == m + [(k, v)]
  {
    if m == [] then [(k, v)]
    else if m[0].0 == k then [(k, v)] + m[1..]
    else [m[0]] + Put(m[1..], k, v)
  }

  /** Putting a key that is already present overwrites its first entry in place. */
  lemma {:induction false} PutExisting(m: seq<(string, real)>, k: string, v: real, j: nat)
    requires j < |m| && m[j].0 == k
    requires forall i :: 0 <= i < j ==> m[i].0 != k
    ensures Put(m, k, v) == m[j := (k, v)]
  {
    if j > 0 {
      PutExisting(m[1..], k, v, j - 1);
    }
  }

  /** The score map: target value names to weights, filled in target-value order. */
  function ScoreMap(names: seq<string>, weights: seq<real>): seq<(string, real)>
    requires |weights| <= |names|
  {
    if |weights| == 0 then []
    else Put(ScoreMap(names, weights[..|weights| - 1]), names[|weights| - 1], weights[|weights| - 1])
  }

  /** With distinct target value names the score map holds one entry per target value, in target-value
      order, with that value's weight. */
  lemma {:induction false} ScoreMapInOrder(names: seq<string>, weights: seq<real>)
    requires |weights| <= |names|
    requires forall i, j :: 0 <= i < j < |names| ==> names[i] != names[j]
    ensures var m := ScoreMap(names, weights);
            |m| == |weights| && forall i :: 0 <= i < |m| ==> m[i] == (names[i], weights[i])
  {
    if |weights| > 0 {
      var n := |weights| - 1;
      var w := weights[..n];
      ScoreMapInOrder(names, w);
      var m := ScoreMap(names, w);
      forall j | 0 <= j < |m|
        ensures m[j].0 != names[n]
      {
        assert m[j].0 == names[j];
      }
      var r := ScoreMap(names, weights);
      assert r == m + [(names[n], weights[n])];
      forall i | 0 <= i < |r|
        ensures r[i] == (names[i], weights[i])
      {
        if i < n {
          assert r[i] == m[i];
        }
      }
    }
  }

  /** The conditions of the children, converted in child order. */
  function Predicates(cs: seq<Node>): (ps: seq<PmmlPredicate>)
    requires forall c :: c in cs ==> c.frame.condition.Some?
    ensures |ps| == |cs|
  {
    if cs == [] then []
    else Predicates(cs[..|cs| - 1]) + [PmmlPredicate(cs[|cs| - 1].frame.condition.value)]
  }

  /** The conversion with the id counter threaded through: the counter before the call goes in, the
      converted node and the counter after the call come out. */
  function ToLegacy(n: Node, metaData: TreeMetaData, counter: int): (LegacyNode, int)
    requires Consistent(n, metaData)
    decreases n
  {
    var values := metaData.targetValues;
    var scores := ScoreMap(values, TargetDistribution(n, |values|).value);
    var id := counter + 1;
    if |n.children| == 0 then
      (LegacyLeaf(id, values[n.majorityIndex], scores), id)
    else
      var (kids, next) := ToLegacyChildren(n.children, metaData, id);
      (LegacySplit(id, values[n.majorityIndex], scores, metaData.attributeNames[n.frame.splitAttributeIndex],
                   Predicates(n.children), kids), next)
  }

  function ToLegacyChildren(cs: seq<Node>, metaData: TreeMetaData, counter: int): (seq<LegacyNode>, int)
    requires forall c :: c in cs ==> Consistent(c, metaData)
    decreases cs
  {
    if cs == [] then ([], counter)
    else
      var (init, middle) := ToLegacyChildren(cs[..|cs| - 1], metaData, counter);
      var (last, next) := ToLegacy(cs[|cs| - 1], metaData, middle);
      (init + [last], next)
  }

  /** Ids of a legacy tree in pre-order. */
  function Ids(l: LegacyNode): seq<int>
  {
    match l
    case LegacyLeaf(id, _, _) => [id]
    case LegacySplit(id, _, _, _, _, children) => [id] + IdsOfAll(children)
  }

  function IdsOfAll(ls: seq<LegacyNode>): seq<int>
    decreases ls
  {
    if ls == [] then [] else IdsOfAll(ls[..|ls| - 1]) + Ids(ls[|ls| - 1])
  }

  /** The consecutive integers from `lo` up to but excluding `hi`. */
  function Range(lo: int, hi: int): (r: seq<int>)
    requires lo <= hi
    ensures |r| == hi - lo && forall i :: 0 <= i < |r| ==> r[i] == lo + i
  {
    seq(hi - lo, i => lo + i)
  }

  /** The conversion advances the id counter by the number of nodes in the subtree. */
  lemma {:induction false} LegacyCounterAdvances(n: Node, metaData: TreeMetaData, counter: int)
    requires Consistent(n, metaData)
    ensures ToLegacy(n, metaData, counter).1 == counter + Size(n)
    decreases n
  {
    if |n.children| > 0 {
      LegacyChildrenCounterAdvances(n.children, metaData, counter + 1);
    }
  }

  lemma {:induction false} LegacyChildrenCounterAdvances(cs: seq<Node>, metaData: TreeMetaData, counter: int)
    requires forall c :: c in cs ==> Consistent(c, metaData)
    ensures ToLegacyChildren(cs, metaData, counter).1 == counter + SizeOfAll(cs)
    decreases cs
  {
    if cs != [] {
      var init := cs[..|cs| - 1];
      LegacyChildrenCounterAdvances(init, metaData, counter);
      LegacyCounterAdvances(cs[|cs| - 1], metaData, ToLegacyChildren(init, metaData, counter).1);
    }
  }

  /** The conversion takes exactly one id per node, parent before children, children in index order:
      the pre-order ids are the next `Size(n)` counter values. */
  lemma {:induction false} LegacyIdsArePreorder(n: Node, metaData: TreeMetaData, counter: int)
    requires Consistent(n, metaData)
    ensures Ids(ToLegacy(n, metaData, counter).0) == Range(counter + 1, counter + 1 + Size(n))
    decreases n
  {
    if |n.children| > 0 {
      LegacyChildIdsArePreorder(n.children, metaData, counter + 1);
      var l := ToLegacy(n, metaData, counter);
      var kids := ToLegacyChildren(n.children, metaData, counter + 1);
      assert l.0.id == counter + 1 && l.0.children == kids.0;
      RangeConcat(counter + 1, counter + 2, counter + 1 + Size(n));
    }
  }

  lemma {:induction false} LegacyChildIdsArePreorder(cs: seq<Node>, metaData: TreeMetaData, counter: int)
    requires forall c :: c in cs ==> Consistent(c, metaData)
    ensures IdsOfAll(ToLegacyChildren(cs, metaData, counter).0) == Range(counter + 1, counter + 1 + SizeOfAll(cs))
    decreases cs
  {
    if cs != [] {
      var init := cs[..|cs| - 1];
      LegacyChildIdsArePreorder(init, metaData, counter);
      LegacyChildrenCounterAdvances(init, metaData, counter);
      var prefix := ToLegacyChildren(init, metaData, counter);
      LegacyIdsArePreorder(cs[|cs| - 1], metaData, prefix.1);
      var last := ToLegacy(cs[|cs| - 1], metaData, prefix.1);
      assert ToLegacyChildren(cs, metaData, counter).0 == prefix.0 + [last.0];
      IdsOfAllSnoc(prefix.0, last.0, counter + 1, prefix.1 + 1, counter + 1 + SizeOfAll(cs));
    }
  }

  /** Appending a subtree whose ids continue a consecutive run keeps the run consecutive. */
  lemma IdsOfAllSnoc(ls: seq<LegacyNode>, l: LegacyNode, lo: int, mid: int, hi: int)
    requires lo <= mid <= hi
    requires IdsOfAll(ls) == Range(lo, mid) && Ids(l) == Range(mid, hi)
    ensures IdsOfAll(ls + [l]) == Range(lo, hi)
  {
    assert (ls + [l])[..|ls|] == ls;
    RangeConcat(lo, mid, hi);
  }

  lemma RangeConcat(lo: int, mid: int, hi: int)
    requires lo <= mid <= hi
    ensures Range(lo, mid) + Range(mid, hi) == Range(lo, hi)
  {
  }

  /** Ids in the converted tree are strictly increasing in pre-order. */
  lemma LegacyIdsIncrease(n: Node, metaData: TreeMetaData, counter: int)
    requires Consistent(n, metaData)
    ensures var ids := Ids(ToLegacy(n, metaData, counter).0);
            |ids| == Size(n) && forall i, j :: 0 <= i < j < |ids| ==> ids[i] < ids[j]
  {
    LegacyIdsArePreorder(n, metaData, counter);
  }

  /** A node without children becomes a leaf, any other node a split with one child and one predicate
      per child; the score map has one entry per target value holding the target distribution's weight. */
  lemma LegacyNodeShape(n: Node, metaData: TreeMetaData, counter: int)
    requires Consistent(n, metaData)
    requires forall i, j :: 0 <= i < j < |metaData.targetValues| ==> metaData.targetValues[i] != metaData.targetValues[j]
    ensures var l := ToLegacy(n, metaData, counter).0;
            var d := TargetDistribution(n, |metaData.targetValues|);
            && (l.LegacyLeaf? <==> |n.children| == 0)
            && (l.LegacySplit? ==> |l.children| == |l.predicates| == |n.children|)
            && l.majorityClass == MajorityClassName(n, metaData.targetValues).value
            && d.Ok?
            && |l.scores| == |d.value|
            && forall i :: 0 <= i < |l.scores| ==> l.scores[i] == (metaData.targetValues[i], d.value[i])
  {
    var values := metaData.targetValues;
    ScoreMapInOrder(values, TargetDistribution(n, |values|).value);
    if |n.children| > 0 {
      LegacyChildrenCount(n.children, metaData, counter + 1);
    }
  }

  lemma {:induction false} LegacyChildrenCount(cs: seq<Node>, metaData: TreeMetaData, counter: int)
    requires forall c :: c in cs ==> Consistent(c, metaData)
    ensures |ToLegacyChildren(cs, metaData, counter).0| == |cs|
    decreases cs
  {
    if cs != [] {
      LegacyChildrenCount(cs[..|cs| - 1], metaData, counter);
    }
  }

  /** The legacy node's id source: `inc` advances the counter and hands out the new value. */
  class MutableInteger {
    var value: int

    constructor (initial: int)
      ensures value == initial
    {
      value := initial;
    }

    method Inc() returns (r: int)
      modifies this
      ensures value == old(value) + 1 && r == value
    {
      value := value + 1;
      r := value;
    }
  }

  /** The conversion as the Java code runs it, failures included: the majority class name is looked up
      first, then the score map is filled (an index error once the distribution outruns the target values),
      then the node takes its id, then an inner node looks up its split attribute, and then the children
      are converted in order, each child's condition read before the child itself is converted.  The
      counter after the call is returned on failure too: ids already taken stay taken. */
  function Convert(n: Node, metaData: TreeMetaData, counter: int): (Result<LegacyNode, NodeError>, int)
    decreases n
  {
    var values := metaData.targetValues;
    if !(0 <= n.majorityIndex < |values|) then (Err(OutOfRange(n.majorityIndex)), counter)
    else
      var d := TargetDistribution(n, |values|).value;
      if |d| > |values| then (Err(OutOfRange(|values|)), counter)
      else
        var scores := ScoreMap(values, d);
        var id := counter + 1;
        if |n.children| == 0 then (Ok(LegacyLeaf(id, values[n.majorityIndex], scores)), id)
        else if !(0 <= n.frame.splitAttributeIndex < |metaData.attributeNames|) then
          (Err(OutOfRange(n.frame.splitAttributeIndex)), id)
        else
          var (kids, next) := ConvertChildren(n.children, metaData, id);
          if kids.Err? then (Err(kids.error), next)
          else
            (Ok(LegacySplit(id, values[n.majorityIndex], scores, metaData.attributeNames[n.frame.splitAttributeIndex],
                            Predicates(n.children), kids.value)), next)
  }

  function ConvertChildren(cs: seq<Node>, metaData: TreeMetaData, counter: int): (r: (Result<seq<LegacyNode>, NodeError>, int))
    ensures r.0.Ok? ==> forall c :: c in cs ==> c.frame.condition.Some?
    decreases cs
  {
    if cs == [] then (Ok([]), counter)
    else
      var (init, middle) := ConvertChildren(cs[..|cs| - 1], metaData, counter);
      var c := cs[|cs| - 1];
      if init.Err? then (init, middle)
      else if c.frame.condition.None? then (Err(MissingCondition), middle)
      else
        var (last, next) := Convert(c, metaData, middle);
        if last.Err? then (Err(last.error), next) else (Ok(init.value + [last.value]), next)
  }

  /** The conversion succeeds exactly on consistent nodes, and then yields the legacy tree and the counter
      of the failure-free conversion. */
  lemma {:induction false} ConvertSucceedsIffConsistent(n: Node, metaData: TreeMetaData, counter: int)
    ensures Convert(n, metaData, counter).0.Ok? <==> Consistent(n, metaData)
    ensures Consistent(n, metaData) ==>
              Convert(n, metaData, counter) == (Ok(ToLegacy(n, metaData, counter).0), ToLegacy(n, metaData, counter).1)
    decreases n
  {
    var values := metaData.targetValues;
    if 0 <= n.majorityIndex < |values| && |TargetDistribution(n, |values|).value| <= |values|
       && |n.children| > 0 && 0 <= n.frame.splitAttributeIndex < |metaData.attributeNames| {
      ConvertChildrenSucceedIffConsistent(n.children, metaData, counter + 1);
    }
  }

  lemma {:induction false} ConvertChildrenSucceedIffConsistent(cs: seq<Node>, metaData: TreeMetaData, counter: int)
    ensures ConvertChildren(cs, metaData, counter).0.Ok? <==>
              forall c :: c in cs ==> c.frame.condition.Some? && Consistent(c, metaData)
    ensures (forall c :: c in cs ==> c.frame.condition.Some? && Consistent(c, metaData)) ==>
              ConvertChildren(cs, metaData, counter) ==
                (Ok(ToLegacyChildren(cs, metaData, counter).0), ToLegacyChildren(cs, metaData, counter).1)
    decreases cs
  {
    if cs != [] {
      var init := cs[..|cs| - 1];
      var c := cs[|cs| - 1];
      ConvertChildrenSucceedIffConsistent(init, metaData, counter);
      assert forall x :: x in cs <==> x in init || x == c;
      ConvertSucceedsIffConsistent(c, metaData, ConvertChildren(init, metaData, counter).1);
    }
  }

  /** Once a prefix of the children fails, the whole run fails with that error and that counter: the
      remaining children are never converted. */
  lemma {:induction false} ConvertChildrenStopsAtFailure(cs: seq<Node>, i: nat, metaData: TreeMetaData, counter: int)
    requires i <= |cs|
    requires ConvertChildren(cs[..i], metaData, counter).0.Err?
    ensures ConvertChildren(cs, metaData, counter) == ConvertChildren(cs[..i], metaData, counter)
    decreases |cs| - i
  {
    if i < |cs| {
      assert cs[..i + 1][..i] == cs[..i];
      ConvertChildrenStopsAtFailure(cs, i + 1, metaData, counter);
    } else {
      assert cs[..i] == cs;
    }
  }

  /** `createDecisionTreeNode`: converts the subtree, taking ids from the shared counter; a failure is
      returned as the error the Java code throws, with the ids taken so far left taken. */
  method CreateDecisionTreeNode(n: Node, idGenerator: MutableInteger, metaData: TreeMetaData)
    returns (legacy: Result<LegacyNode, NodeError>)
    modifies idGenerator
    ensures (legacy, idGenerator.value) == Convert(n, metaData, old(idGenerator.value))
    decreases n
  {
    var targets := metaData.targetValues;
    if !(0 <= n.majorityIndex < |targets|) {
      return Err(OutOfRange(n.majorityIndex));
    }
    var majorityClass := targets[n.majorityIndex];
    var targetDistribution := TargetDistribution(n, |targets|).value;
    if |targetDistribution| > |targets| {
      return Err(OutOfRange(|targets|));
    }
    var scoreDistributionMap := BuildScoreMap(targets, targetDistribution);
    var nrChildren := |n.children|;
    if nrChildren == 0 {
      var id := idGenerator.Inc();
      legacy := Ok(LegacyLeaf(id, majorityClass, scoreDistributionMap));
    } else {
      var id := idGenerator.Inc();
      if !(0 <= n.frame.splitAttributeIndex < |metaData.attributeNames|) {
        return Err(OutOfRange(n.frame.splitAttributeIndex));
      }
      var splitAttribute := metaData.attributeNames[n.frame.splitAttributeIndex];
      var childPredicates: seq<PmmlPredicate> := [];
      var childNodes: seq<LegacyNode> := [];
      for i := 0 to nrChildren
        invariant ConvertChildren(n.children[..i], metaData, id) == (Ok(childNodes), idGenerator.value)
        invariant childPredicates == Predicates(n.children[..i])
      {
        var treeNode := n.children[i];
        assert n.children[..i + 1][..i] == n.children[..i];
        if treeNode.frame.condition.None? {
          ConvertChildrenStopsAtFailure(n.children, i + 1, metaData, id);
          return Err(MissingCondition);
        }
        childPredicates := childPredicates + [PmmlPredicate(treeNode.frame.condition.value)];
        var childNode := CreateDecisionTreeNode(treeNode, idGenerator, metaData);
        if childNode.Err? {
          ConvertChildrenStopsAtFailure(n.children, i + 1, metaData, id);
          return Err(childNode.error);
        }
        childNodes := childNodes + [childNode.value];
      }
      assert n.children[..nrChildren] == n.children;
      legacy := Ok(LegacySplit(id, majorityClass, scoreDistributionMap, splitAttribute, childPredicates, childNodes));
    }
  }

  /** The score map loop of `createDecisionTreeNode`: one `put` per distribution entry, in index order. */
  method BuildScoreMap(targets: seq<string>, targetDistribution: seq<real>) returns (scoreDistributionMap: seq<(string, real)>)
    requires |targetDistribution| <= |targets|
    ensures scoreDistributionMap == ScoreMap(targets, targetDistribution)
  {
    scoreDistributionMap := [];
    for i := 0 to |targetDistribution|
      invariant scoreDistributionMap == ScoreMap(targets, targetDistribution[..i])
    {
      assert targetDistribution[..i + 1][..i] == targetDistribution[..i];
      scoreDistributionMap := Put(scoreDistributionMap, targets[i], targetDistribution[i]);
    }
    assert targetDistribution[..|targetDistribution|] == targetDistribution;
  }

  // ---------------------------------------------------------------------------
  // Structure of the textual rendering
  // ---------------------------------------------------------------------------

  /** One rendered line: indentation, the incoming condition, the majority class with its weight and the
      total weight (number formatting is not modelled). */
  datatype Line = Line(indent: string, condition: Option<Condition>, majorityClass: string,
                       majorityWeight: real, weightSum: real)

  function Sum(s: seq<real>): real
  {
    if s == [] then 0.0 else Sum(s[..|s| - 1]) + s[|s| - 1]
  }

  /** What the rendering relies on: a valid majority index that also indexes the distribution, here and in
      every descendant. */
  predicate Renderable(n: Node, metaData: TreeMetaData)
  {
    && 0 <= n.majorityIndex < |metaData.targetValues|
    && (n.targetDistribution.Some? ==> n.majorityIndex < |n.targetDistribution.value|)
    && forall c :: c in n.children ==> Renderable(c, metaData)
  }

  /** `toStringRecursion`: the node's own line, then each child's lines indented by three more spaces. */
  function Render(n: Node, metaData: TreeMetaData, indent: string): seq<Line>
    requires Renderable(n, metaData)
    decreases n
  {
    var d := TargetDistribution(n, |metaData.targetValues|).value;
    [Line(indent, n.frame.condition, metaData.targetValues[n.majorityIndex], d[n.majorityIndex], Sum(d))]
      + RenderChildren(n.children, metaData, indent + "   ")
  }

  function RenderChildren(cs: seq<Node>, metaData: TreeMetaData, indent: string): seq<Line>
    requires forall c :: c in cs ==> Renderable(c, metaData)
    decreases cs
  {
    if cs == [] then [] else RenderChildren(cs[..|cs| - 1], metaData, indent) + Render(cs[|cs| - 1], metaData, indent)
  }

  /** The rendering has one line per node of the subtree; the first is the node's own, and every line is
      indented at least as deep as the node. */
  lemma {:induction false} RenderCoversSubtree(n: Node, metaData: TreeMetaData, indent: string)
    requires Renderable(n, metaData)
    ensures var lines := Render(n, metaData, indent);
            && |lines| == Size(n)
            && lines[0].indent == indent && lines[0].condition == n.frame.condition
            && lines[0].majorityClass == MajorityClassName(n, metaData.targetValues).value
            && forall k :: 0 <= k < |lines| ==> indent <= lines[k].indent
    decreases n
  {
    RenderChildrenCover(n.children, metaData, indent + "   ");
  }

  lemma {:induction false} RenderChildrenCover(cs: seq<Node>, metaData: TreeMetaData, indent: string)
    requires forall c :: c in cs ==> Renderable(c, metaData)
    ensures var lines := RenderChildren(cs, metaData, indent);
            && |lines| == SizeOfAll(cs)
            && forall k :: 0 <= k < |lines| ==> indent <= lines[k].indent
    decreases cs
  {
    if cs != [] {
      RenderChildrenCover(cs[..|cs| - 1], metaData, indent);
      RenderCoversSubtree(cs[|cs| - 1], metaData, indent);
    }
  }
}
