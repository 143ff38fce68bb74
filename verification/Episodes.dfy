/**
  EpisodeMetricFact of proto/maze/metrics.pb.cc as an object that updates itself in place: two strings
  and the facts of its agents, whose components make it three levels deep.
 */
module Episodes {
  import opened Options
  import opened Wire
  import opened Utf8
  import opened Message
  import opened RoundTrip
  import opened Sizes
  import opened TwoPass
  import opened Schemas
  import opened Runtime
  import opened Counts
  import opened FactState
  import opened EpisodeFacts

  // ---------------------------------------------------------------- what the fields stand for

  datatype EpisodeState = EpisodeState(agents: seq<Msg>, environment: bytes, episode: bytes, unknown: seq<Record>)
  {
    function Slots(): seq<Option<Value>>
    {
      [None, None, StrSlot(Plain(Text), environment), StrSlot(Plain(Text), episode), None, ManySlot(agents)]
    }

    function Abs(): Msg { Build(Slots(), unknown) }
  }

  const NO_EPISODE := EpisodeState([], [], [], [])

  lemma EmptyEpisode()
    ensures NO_EPISODE.Abs() == EMPTY
  {
    BuildEmpty(NO_EPISODE.Slots());
  }

  lemma EpisodeSlot(st: EpisodeState, k: nat)
    ensures Slot(st.Abs(), k) == if k < 6 then st.Slots()[k] else None
    ensures st.Abs().unknown == st.unknown
  {
    hide Build;
    BuildSlot(st.Slots(), st.unknown, k);
    BuildUnknown(st.Slots(), st.unknown);
  }

  lemma EpisodeFields()
    ensures EPISODE_METRIC_FACT.max == 5 && EPISODE_METRIC_FACT.fields.Keys == {2, 3, 5}
    ensures EPISODE_METRIC_FACT.fields[2] == EPISODE_METRIC_FACT.fields[3] == Plain(Text)
    ensures EPISODE_METRIC_FACT.fields[5] == Plain(Rep(AGENT_EPISODE_METRIC_FACT))
  {
    hide AGENT_EPISODE_METRIC_FACT;
  }

  /** Storing a string or the agents is storing that field of the message. */
  lemma PutEpisodeField(st: EpisodeState, st': EpisodeState, k: nat)
    requires k == 2 || k == 3 || k == 5
    requires st' == if k == 2 then st.(environment := st'.environment)
                    else if k == 3 then st.(episode := st'.episode) else st.(agents := st'.agents)
    ensures st'.Abs() == PutSlot(EPISODE_METRIC_FACT, st.Abs(), k, st'.Slots()[k])
  {
    hide Build, PutSlot, StrSlot, ManySlot, EPISODE_METRIC_FACT;
    EpisodeFields();
    assert st'.Slots() == st.Slots()[k := st'.Slots()[k]];
    BuildPut(EPISODE_METRIC_FACT, st.Slots(), st.unknown, k, st'.Slots()[k]);
  }

  function WithText(st: EpisodeState, k: nat, b: bytes): EpisodeState
  {
    if k == 2 then st.(environment := b) else st.(episode := b)
  }

  lemma EpisodeTextCase(st: EpisodeState, buf: bytes, ptr: nat, limit: nat, k: nat)
    requires (k == 2 || k == 3) && ptr < limit <= |buf|
    requires ReadTag(buf, ptr, limit).NumAt? && ReadTag(buf, ptr, limit).v == 8 * k + 2
    ensures var x := ReadString(buf, ReadTag(buf, ptr, limit).ptr, limit);
            Parse(EPISODE_METRIC_FACT, st.Abs(), buf[ptr..limit]) ==
            if x.NoStr? || !ValidUtf8(x.b) then Failed
            else Parse(EPISODE_METRIC_FACT, WithText(st, k, x.b).Abs(), buf[x.ptr..limit])
  {
    hide Parse, ReadTag, ReadString, PutSlot, EpisodeState.Abs, ValidUtf8, EPISODE_METRIC_FACT;
    EpisodeFields();
    StepText(EPISODE_METRIC_FACT, st.Abs(), buf, ptr, limit, k);
    var x := ReadString(buf, ReadTag(buf, ptr, limit).ptr, limit);
    if x.StrAt? { PutEpisodeField(st, WithText(st, k, x.b), k); }
  }

  lemma AgentCase(st: EpisodeState, buf: bytes, ptr: nat, limit: nat)
    requires ptr < limit <= |buf|
    requires ReadTag(buf, ptr, limit).NumAt? && ReadTag(buf, ptr, limit).v == 42
    ensures var x := ReadSize(buf, ReadTag(buf, ptr, limit).ptr, limit);
            x.NoSpan? ==> Parse(EPISODE_METRIC_FACT, st.Abs(), buf[ptr..limit]) == Failed
    ensures var x := ReadSize(buf, ReadTag(buf, ptr, limit).ptr, limit);
            x.SpanAt? ==>
              var c := Parse(AGENT_EPISODE_METRIC_FACT, EMPTY, buf[x.ptr..x.end]);
              Parse(EPISODE_METRIC_FACT, st.Abs(), buf[ptr..limit]) ==
              if c.Done? then Parse(EPISODE_METRIC_FACT, st.(agents := st.agents + [c.m]).Abs(), buf[x.end..limit])
                else Failed
  {
    hide Parse, ReadTag, ReadSize, PutSlot, EpisodeState.Abs, EPISODE_METRIC_FACT, AGENT_EPISODE_METRIC_FACT;
    EpisodeFields();
    StepNested(EPISODE_METRIC_FACT, st.Abs(), buf, ptr, limit, 5);
    EpisodeSlot(st, 5);
    var x := ReadSize(buf, ReadTag(buf, ptr, limit).ptr, limit);
    if x.SpanAt? {
      var c := Parse(AGENT_EPISODE_METRIC_FACT, EMPTY, buf[x.ptr..x.end]);
      if c.Done? { PutEpisodeField(st, st.(agents := st.agents + [c.m]), 5); }
    }
  }

  lemma EpisodeUnknownCase(st: EpisodeState, buf: bytes, ptr: nat, limit: nat)
    requires ptr < limit <= |buf|
    requires var t := ReadTag(buf, ptr, limit); t.NumAt? && t.v != 0 && t.v % 8 != 4 && t.v !in {18, 26, 42}
    ensures var t := ReadTag(buf, ptr, limit);
            var x := ReadUnknown(buf, t.ptr, limit, t.v);
            if x.NoUnknown? then Parse(EPISODE_METRIC_FACT, st.Abs(), buf[ptr..limit]) == Failed
            else WFRecord(x.r) && !Known(EPISODE_METRIC_FACT, x.r)
                 && Parse(EPISODE_METRIC_FACT, st.Abs(), buf[ptr..limit]) ==
                    Parse(EPISODE_METRIC_FACT, st.(unknown := st.unknown + [x.r]).Abs(), buf[x.ptr..limit])
  {
    hide Parse, ReadTag, ReadUnknown, Build, WFRecord, Known, EPISODE_METRIC_FACT;
    EpisodeFields();
    StepUnknown(EPISODE_METRIC_FACT, st.Abs(), buf, ptr, limit);
    var t := ReadTag(buf, ptr, limit);
    var x := ReadUnknown(buf, t.ptr, limit, t.v);
    if x.UnknownAt? { BuildAppend(st.Slots(), st.unknown, x.r); }
  }

  function MergeEpisodes(a: EpisodeState, b: EpisodeState): EpisodeState
  {
    EpisodeState(a.agents + b.agents,
                 if b.environment != [] then b.environment else a.environment,
                 if b.episode != [] then b.episode else a.episode,
                 a.unknown + b.unknown)
  }

  /** The field-by-field merge is the merge of the messages. */
  lemma {:induction false} MergeEpisodesIsMerge(a: EpisodeState, b: EpisodeState)
    ensures MergeEpisodes(a, b).Abs() == Merge(EPISODE_METRIC_FACT, a.Abs(), b.Abs())
  {
    hide Merge, Build, EpisodeState.Abs, EPISODE_METRIC_FACT;
    var m := MergeEpisodes(a, b);
    EpisodeFields();
    forall k: nat | k < 6
      ensures m.Slots()[k] == MergedSlot(EPISODE_METRIC_FACT, a.Abs(), b.Abs(), k)
    {
      EpisodeSlot(a, k);
      EpisodeSlot(b, k);
      assert a.agents + [] == a.agents && [] + b.agents == b.agents;
    }
    AbsIsBuild(a);
    AbsIsBuild(b);
    AbsIsBuild(m);
    BuildMerge(EPISODE_METRIC_FACT, a.Slots(), a.unknown, b.Slots(), b.unknown, m.Slots());
  }

  lemma AbsIsBuild(st: EpisodeState)
    ensures st.Abs() == Build(st.Slots(), st.unknown)
  {
  }

  /** The size of the encoding, agents first. */
  lemma {:induction false} SizeOfEpisode(st: EpisodeState)
    ensures ByteSize(EPISODE_METRIC_FACT, st.Abs()) ==
            ManySize(5, AGENT_EPISODE_METRIC_FACT, st.agents) + StringSize(st.environment) + StringSize(st.episode)
            + |EncodeRecords(st.unknown)|
  {
    hide EpisodeState.Abs, FieldsSize, SizeAt, ManySize, VarintSize, EPISODE_METRIC_FACT, AGENT_EPISODE_METRIC_FACT;
    var s, m := EPISODE_METRIC_FACT, st.Abs();
    EpisodeFields();
    EpisodeSlot(st, 0);
    SizeStepAt(s, m, 0);
    SizeOfNothing(s, m, 0);
    SizeStepAt(s, m, 1);
    SizeOfNothing(s, m, 1);
    SizeStepAt(s, m, 2);
    EpisodeSlot(st, 2);
    SizeOfStr(s, m, 2, st.environment);
    SizeStepAt(s, m, 3);
    EpisodeSlot(st, 3);
    SizeOfStr(s, m, 3, st.episode);
    SizeStepAt(s, m, 4);
    SizeOfNothing(s, m, 4);
    SizeStepAt(s, m, 5);
    EpisodeSlot(st, 5);
    SizeOfMany(s, m, 5, st.agents);
    SizeStepAt(s, m, 6);
  }

  /** Only the agents nest. */
  lemma OnlyAgentsNest(st: EpisodeState, c: Cache)
    ensures Exact(EPISODE_METRIC_FACT, st.Abs(), c) <==>
            forall i | 0 <= i < |st.agents| :: Sound(AGENT_EPISODE_METRIC_FACT, st.agents[i], Kid(c, 5, i))
  {
    hide EpisodeState.Abs, Sound, Kid, EPISODE_METRIC_FACT, AGENT_EPISODE_METRIC_FACT;
    var s, m := EPISODE_METRIC_FACT, st.Abs();
    EpisodeFields();
    EpisodeSlot(st, 5);
    forall k | k in s.fields && k in m.fields && k != 5
      ensures ExactField(k, s.fields[k], m.fields[k], c)
    {
      EpisodeSlot(st, k);
    }
    assert 5 in m.fields ==> m.fields[5] == Many(st.agents);
  }

  // ---------------------------------------------------------------- agents

  function Components(xs: seq<AgentEpisodeMetricFact>): set<RawMetricSumCount>
    reads xs`rewardComponents
  {
    set a, e | a in xs && e in a.rewardComponents :: e
  }

  function PlainFields(xs: seq<AgentEpisodeMetricFact>): set<array<u64>> { set a | a in xs :: a.cells }

  predicate Laid(xs: seq<AgentEpisodeMetricFact>) { forall a | a in xs :: a.cells.Length == CELLS }

  lemma Footprint(xs: seq<AgentEpisodeMetricFact>, a: AgentEpisodeMetricFact)
    requires a in xs
    ensures a.cells in PlainFields(xs) && forall e | e in a.rewardComponents :: e in Components(xs)
  {
  }

  lemma Within(xs: seq<AgentEpisodeMetricFact>, ys: seq<AgentEpisodeMetricFact>)
    requires forall a | a in xs :: a in ys
    ensures PlainFields(xs) <= PlainFields(ys) && Components(xs) <= Components(ys)
  {
  }

  function MessageOf(xs: seq<AgentEpisodeMetricFact>, i: nat): (m: Msg)
    requires Laid(xs) && i < |xs|
    reads xs, PlainFields(xs), Components(xs)
    ensures m == xs[i].Abs()
  {
    hide PlainFields, Components, AgentEpisodeMetricFact.Abs;
    Footprint(xs, xs[i]);
    xs[i].Abs()
  }

  function AgentMessages(xs: seq<AgentEpisodeMetricFact>): (ms: seq<Msg>)
    requires Laid(xs)
    reads xs, PlainFields(xs), Components(xs)
    ensures |ms| == |xs|
    ensures forall i | 0 <= i < |xs| :: ms[i] == xs[i].Abs()
    decreases |xs|
  {
    hide PlainFields, Components, AgentEpisodeMetricFact.Abs;
    if xs == [] then []
    else
      Within(xs[..|xs| - 1], xs);
      AgentMessages(xs[..|xs| - 1]) + [MessageOf(xs, |xs| - 1)]
  }

  lemma AgentsAppend(xs: seq<AgentEpisodeMetricFact>, x: AgentEpisodeMetricFact)
    requires Laid(xs + [x])
    ensures Laid(xs) && AgentMessages(xs + [x]) == AgentMessages(xs) + [x.Abs()]
  {
    hide AgentEpisodeMetricFact.Abs;
    assert (xs + [x])[..|xs|] == xs;
    assert forall a | a in xs :: a in xs + [x];
  }

  /** Agents that stand for the same messages as before. */
  twostate lemma SameAgents(xs: seq<AgentEpisodeMetricFact>)
    requires Laid(xs) && forall a | a in xs :: a.Abs() == old(a.Abs())
    ensures AgentMessages(xs) == old(AgentMessages(xs))
  {
    hide AgentEpisodeMetricFact.Abs;
  }

  function AgentCaches(xs: seq<AgentEpisodeMetricFact>): (r: seq<Cache>)
    reads xs, Components(xs)
    ensures |r| == |xs|
    ensures forall i | 0 <= i < |xs| :: r[i] == xs[i].Caches()
    decreases |xs|
  {
    hide PlainFields, Components, AgentEpisodeMetricFact.Caches;
    if xs == [] then []
    else
      Within(xs[..|xs| - 1], xs);
      Footprint(xs, xs[|xs| - 1]);
      AgentCaches(xs[..|xs| - 1]) + [xs[|xs| - 1].Caches()]
  }

  lemma {:induction false} AgentsConcat(xs: seq<AgentEpisodeMetricFact>, ys: seq<AgentEpisodeMetricFact>)
    requires Laid(xs) && Laid(ys)
    ensures Laid(xs + ys) && AgentMessages(xs + ys) == AgentMessages(xs) + AgentMessages(ys)
  {
    hide AgentEpisodeMetricFact.Abs;
    assert AgentMessages(xs + ys) == AgentMessages(xs) + AgentMessages(ys);
  }

  twostate lemma SameCaches(xs: seq<AgentEpisodeMetricFact>)
    requires forall a | a in xs :: a.Caches() == old(a.Caches())
    ensures AgentCaches(xs) == old(AgentCaches(xs))
  {
    hide AgentEpisodeMetricFact.Caches;
  }

  datatype Turn = Stop | Go(ptr: nat)

  class EpisodeMetricFact {
    var agents: seq<AgentEpisodeMetricFact>
    var environmentInstanceId: bytes
    var episodeId: bytes
    var unknown: seq<Record>
    var cachedSize: nat

    function State(): EpisodeState
      requires Laid(agents)
      reads this`agents, this`environmentInstanceId, this`episodeId, this`unknown
      reads agents, PlainFields(agents), Components(agents)
    {
      EpisodeState(AgentMessages(agents), environmentInstanceId, episodeId, unknown)
    }

    function Abs(): Msg
      requires Laid(agents)
      reads this`agents, this`environmentInstanceId, this`episodeId, this`unknown
      reads agents, PlainFields(agents), Components(agents)
    {
      State().Abs()
    }

    ghost predicate Valid()
      reads this`agents, this`unknown
      reads agents, PlainFields(agents), Components(agents)
    {
      && Laid(agents) && LegalUnknown(EPISODE_METRIC_FACT, unknown)
      && forall a | a in agents :: (Footprint(agents, a); a.Valid())
    }

    constructor ()
      ensures Valid() && State() == NO_EPISODE && Abs() == EMPTY
    {
      agents, environmentInstanceId, episodeId := [], [], [];
      unknown, cachedSize := [], 0;
      new;
      EmptyEpisode();
    }

    // -------------------------------------------------------------- parsing

    method InternalParse(buf: bytes, start: nat, limit: nat) returns (st: Status)
      requires Valid() && start <= limit <= |buf|
      modifies this
      ensures Valid()
      ensures Agrees(Parse(EPISODE_METRIC_FACT, old(Abs()), buf[start..limit]), st, Abs())
    {
      hide Parse, ReadTag, EpisodeState.Abs, EpisodeMetricFact.State, EpisodeMetricFact.Valid, Laid,
        EPISODE_METRIC_FACT;
      ValidLaid();
      var ptr := start;
      while ptr < limit
        invariant start <= ptr <= limit && Valid() && Laid(agents)
        invariant Parse(EPISODE_METRIC_FACT, State().Abs(), buf[ptr..limit]) ==
                  Parse(EPISODE_METRIC_FACT, old(Abs()), buf[start..limit])
        decreases limit - ptr
      {
        StepTag(EPISODE_METRIC_FACT, State().Abs(), buf, ptr, limit);
        var t := ReadTag(buf, ptr, limit);
        if t.NoNum? { return Null; }
        var turn;
        if t.v / 8 == 2 && t.v % 256 == 18 {
          turn := ParseText(buf, ptr, limit, t, 2);
        } else if t.v / 8 == 3 && t.v % 256 == 26 {
          turn := ParseText(buf, ptr, limit, t, 3);
        } else if t.v / 8 == 5 && t.v % 256 == 42 {
          turn := ParseAgents(buf, ptr, limit);
        } else {
          if t.v == 0 || t.v % 8 == 4 { return AtTag(t.v); }
          turn := KeepUnknown(buf, ptr, limit, t);
        }
        if turn.Stop? { return Null; }
        ptr := turn.ptr;
      }
      ParseEnd(EPISODE_METRIC_FACT, Abs(), buf, limit);
      return AtLimit;
    }

    lemma ValidLaid()
      requires Valid()
      ensures Laid(agents)
    {
    }

    /** The two strings: stored, then checked. */
    method ParseText(buf: bytes, ptr: nat, limit: nat, t: NumAt, k: nat) returns (turn: Turn)
      requires Valid() && ptr < limit <= |buf| && t == ReadTag(buf, ptr, limit) && t.NumAt?
      requires (k == 2 || k == 3) && t.v == 8 * k + 2
      modifies this`environmentInstanceId, this`episodeId
      ensures Valid() && Laid(agents) && (turn.Go? ==> ptr < turn.ptr <= limit)
      ensures Parse(EPISODE_METRIC_FACT, old(State()).Abs(), buf[ptr..limit]) ==
              if turn.Go? then Parse(EPISODE_METRIC_FACT, State().Abs(), buf[turn.ptr..limit]) else Failed
    {
      hide Parse, ReadTag, ReadString, EpisodeState.Abs, ValidUtf8, AgentMessages, AgentEpisodeMetricFact.Valid,
        AgentEpisodeMetricFact.Abs, EPISODE_METRIC_FACT, LegalUnknown;
      EpisodeTextCase(State(), buf, ptr, limit, k);
      var x := ReadString(buf, t.ptr, limit);
      if x.NoStr? { return Stop; }
      if k == 2 { environmentInstanceId := x.b; } else { episodeId := x.b; }
      SameAgents(agents);
      return if ValidUtf8(x.b) then Go(x.ptr) else Stop;
    }

    method KeepUnknown(buf: bytes, ptr: nat, limit: nat, t: NumAt) returns (turn: Turn)
      requires Valid() && ptr < limit <= |buf| && t == ReadTag(buf, ptr, limit) && t.NumAt?
      requires t.v !in {18, 26, 42} && t.v != 0 && t.v % 8 != 4
      modifies this`unknown
      ensures Valid() && Laid(agents) && (turn.Go? ==> ptr < turn.ptr <= limit)
      ensures Parse(EPISODE_METRIC_FACT, old(State()).Abs(), buf[ptr..limit]) ==
              if turn.Go? then Parse(EPISODE_METRIC_FACT, State().Abs(), buf[turn.ptr..limit]) else Failed
    {
      hide Parse, ReadTag, ReadUnknown, EpisodeState.Abs, WFRecord, Known, AgentMessages, AgentEpisodeMetricFact.Valid,
        AgentEpisodeMetricFact.Abs, EPISODE_METRIC_FACT, LegalUnknown;
      EpisodeUnknownCase(State(), buf, ptr, limit);
      var u := ReadUnknown(buf, t.ptr, limit, t.v);
      if u.NoUnknown? { return Stop; }
      LegalAppend(EPISODE_METRIC_FACT, unknown, u.r);
      unknown := unknown + [u.r];
      SameAgents(agents);
      return Go(u.ptr);
    }

    /** A new agent, parsed from its span; it stays in the list even when that fails. */
    method AddAgent(buf: bytes, start: nat, limit: nat) returns (inner: Status)
      requires Valid() && start <= limit <= |buf|
      modifies this`agents
      ensures Valid() && |agents| == |old(agents)| + 1
      ensures Agrees(Parse(AGENT_EPISODE_METRIC_FACT, EMPTY, buf[start..limit]), inner, agents[|agents| - 1].Abs())
      ensures State() == old(State()).(agents := old(State()).agents + [agents[|agents| - 1].Abs()])
    {
      hide Parse, AgentMessages, AgentEpisodeMetricFact.Parsing, AgentEpisodeMetricFact.State, FactState.Abs,
        LegalUnknown;
      var agent := new AgentEpisodeMetricFact();
      inner := agent.InternalParse(buf, start, limit);
      AgentsAppend(agents, agent);
      agents := agents + [agent];
    }

    /** Case 5: consecutive agents are consumed without going back to the switch. */
    method ParseAgents(buf: bytes, start: nat, limit: nat) returns (turn: Turn)
      requires Valid() && start < limit <= |buf|
      requires ReadTag(buf, start, limit).NumAt? && ReadTag(buf, start, limit).v == 42
      modifies this`agents
      ensures Valid() && Laid(agents) && (turn.Go? ==> start < turn.ptr <= limit)
      ensures Parse(EPISODE_METRIC_FACT, old(State()).Abs(), buf[start..limit]) ==
              if turn.Go? then Parse(EPISODE_METRIC_FACT, State().Abs(), buf[turn.ptr..limit]) else Failed
    {
      hide Parse, ReadTag, ReadSize, EpisodeState.Abs, AgentMessages, AgentEpisodeMetricFact.Valid,
        AgentEpisodeMetricFact.Abs, EPISODE_METRIC_FACT, AGENT_EPISODE_METRIC_FACT, LegalUnknown;
      ghost var tagAt: nat := start;
      var ptr := ReadTag(buf, start, limit).ptr;
      while true
        invariant Valid()
        invariant start <= tagAt < ptr <= limit && ReadTag(buf, tagAt, limit) == NumAt(42, ptr)
        invariant Parse(EPISODE_METRIC_FACT, old(State()).Abs(), buf[start..limit]) ==
                  Parse(EPISODE_METRIC_FACT, State().Abs(), buf[tagAt..limit])
        decreases limit - ptr
      {
        AgentCase(State(), buf, tagAt, limit);
        var x := ReadSize(buf, ptr, limit);
        if x.NoSpan? { return Stop; }
        var inner := AddAgent(buf, x.ptr, x.end);
        if inner != AtLimit { return Stop; }
        ptr := x.end;
        if ptr >= limit || buf[ptr] != 42 { return Go(ptr); }
        ExpectTag(buf, ptr, limit, 42);
        tagAt := ptr;
        ptr := ptr + 1;
      }
    }

    // -------------------------------------------------------------- size and print

    /** The sizes cached in this object, its agents and their components. */
    function Caches(): Cache
      reads this`cachedSize, this`agents, agents, Components(agents)
    {
      Cache(cachedSize, map[5 := AgentCaches(agents)])
    }

    /** An agent carries its own size and so do its components. */
    ghost predicate Measured(a: AgentEpisodeMetricFact)
      requires a.cells.Length == CELLS
      reads a, a.cells, a.rewardComponents
    {
      a.cachedSize == ByteSize(AGENT_EPISODE_METRIC_FACT, a.Abs()) && a.Cached()
    }

    /** The caches are right exactly when every agent and every component carries its own size. */
    lemma {:induction false} CachedExactly()
      requires Laid(agents)
      ensures (forall a | a in agents :: Measured(a)) <==> Exact(EPISODE_METRIC_FACT, Abs(), Caches())
    {
      hide EpisodeState.Abs, AgentMessages, AgentEpisodeMetricFact.Abs, AgentEpisodeMetricFact.Caches,
        AgentEpisodeMetricFact.Cached, ByteSize, Exact, EPISODE_METRIC_FACT, AGENT_EPISODE_METRIC_FACT;
      var c, ms := Caches(), AgentMessages(agents);
      OnlyAgentsNest(State(), c);
      forall i | 0 <= i < |agents|
        ensures Sound(AGENT_EPISODE_METRIC_FACT, ms[i], Kid(c, 5, i)) <==> Measured(agents[i])
      {
        agents[i].CachedExactly();
        assert Kid(c, 5, i) == agents[i].Caches();
        OwnSize(agents[i]);
      }
    }

    lemma OwnSize(a: AgentEpisodeMetricFact)
      ensures a.Caches().size == a.cachedSize
    {
    }

    /** Sizes one more agent. */
    method SizeAgent(i: nat, a: AgentEpisodeMetricFact) returns (size: nat)
      requires Laid(agents) && i < |agents| && a == agents[i] && forall b | b in agents[..i] :: Measured(b)
      modifies a`cachedSize, a.rewardComponents`cachedSize
      ensures forall b | b in agents[..i + 1] :: Measured(b)
      ensures size == ByteSize(AGENT_EPISODE_METRIC_FACT, a.Abs())
      ensures AgentMessages(agents) == old(AgentMessages(agents))
    {
      hide AgentMessages, FactState.Abs, RawMetricSumCount.Abs, ByteSize, Exact, AgentEpisodeMetricFact.Caches,
        EpisodeMetricFact.Measured;
      size := MeasureAgent(agents[..i], a);
      SameAgents(agents);
    }

    /** Agents that were sized stay so when another one is, even where they share components with it. */
    method MeasureAgent(ghost before: seq<AgentEpisodeMetricFact>, a: AgentEpisodeMetricFact) returns (size: nat)
      requires a.cells.Length == CELLS && Laid(before) && forall b | b in before :: Measured(b)
      modifies a`cachedSize, a.rewardComponents`cachedSize
      ensures size == ByteSize(AGENT_EPISODE_METRIC_FACT, a.Abs())
      ensures Measured(a) && forall b | b in before :: Measured(b)
    {
      hide FactState.Abs, RawMetricSumCount.Abs, ByteSize, Exact, AgentEpisodeMetricFact.Caches;
      size := a.ByteSizeLong();
      a.CachedExactly();
    }

    method AgentsSize() returns (total: nat)
      requires Laid(agents)
      modifies agents`cachedSize, Components(agents)`cachedSize
      ensures total == ManySize(5, AGENT_EPISODE_METRIC_FACT, AgentMessages(agents))
      ensures AgentMessages(agents) == old(AgentMessages(agents)) && forall a | a in agents :: Measured(a)
    {
      hide ByteSize, AgentMessages, AgentEpisodeMetricFact.Abs, ManySize, VarintSize, EpisodeMetricFact.Measured;
      ghost var ms := AgentMessages(agents);
      total := |agents|;
      var i := 0;
      NothingToSize(5, AGENT_EPISODE_METRIC_FACT);
      ghost var parts := Components(agents);
      forall a | a in agents
        ensures forall e | e in a.rewardComponents :: e in parts
      {
        Footprint(agents, a);
      }
      while i < |agents|
        invariant i <= |agents| && AgentMessages(agents) == ms
        invariant forall a | a in agents :: forall e | e in a.rewardComponents :: e in parts
        invariant total == |agents| - i + ManySize(5, AGENT_EPISODE_METRIC_FACT, ms[..i])
        invariant forall b | b in agents[..i] :: Measured(b)
      {
        var size := SizeAgent(i, agents[i]);
        total := total + VarintSize(size) + size;
        assert ms[..i + 1] == ms[..i] + [ms[i]];
        ManySizeAppend(5, AGENT_EPISODE_METRIC_FACT, ms[..i], ms[i]);
        OneByteTag(5);
        i := i + 1;
      }
      assert ms[..i] == ms;
    }

    /** The size pass: agents first, each sizing its components, then the strings. */
    method ByteSizeLong() returns (total: nat)
      requires Laid(agents)
      modifies this`cachedSize, agents`cachedSize, Components(agents)`cachedSize
      ensures State() == old(State())
      ensures total == cachedSize == ByteSize(EPISODE_METRIC_FACT, Abs())
      ensures Exact(EPISODE_METRIC_FACT, Abs(), Caches())
    {
      hide EpisodeState.Abs, ByteSize, VarintSize, ManySize, AgentMessages, EPISODE_METRIC_FACT,
        AGENT_EPISODE_METRIC_FACT, Exact, EpisodeMetricFact.Caches, EpisodeMetricFact.Measured;
      SizeOfEpisode(State());
      total := AgentsSize();
      if environmentInstanceId != [] {
        total := total + 1 + VarintSize(|environmentInstanceId|) + |environmentInstanceId|;
      }
      if episodeId != [] { total := total + 1 + VarintSize(|episodeId|) + |episodeId|; }
      total := total + |EncodeRecords(unknown)|;
      CacheSize(total);
      CachedExactly();
    }

    method CacheSize(size: nat)
      requires Laid(agents) && forall a | a in agents :: Measured(a)
      modifies this`cachedSize
      ensures cachedSize == size && AgentMessages(agents) == old(AgentMessages(agents))
      ensures forall a | a in agents :: Measured(a)
    {
      hide AgentMessages, AgentEpisodeMetricFact.Abs, AgentEpisodeMetricFact.Cached, ByteSize;
      cachedSize := size;
      SameAgents(agents);
    }

    /** The print pass: each agent behind a header with its cached size, and so on below. */
    method InternalSerialize(ghost ord: Order, target: bytes) returns (out: bytes)
      requires Laid(agents)
      ensures out == target + Print(ord, EPISODE_METRIC_FACT, Abs(), Caches())
      ensures State() == old(State())
    {
      hide EpisodeState.Abs, AgentMessages, EpisodeMetricFact.Caches, Printed, Print, PrintElements, EncodeRecords,
        EPISODE_METRIC_FACT, AGENT_EPISODE_METRIC_FACT;
      ghost var (st, c) := (State(), Caches());
      EpisodeFields();
      EpisodeSlot(st, 0);
      out := SerializeTexts(ord, st, c, target);
      PrintAgents(ord, st, c, target);
      PrintEnd(ord, EPISODE_METRIC_FACT, st.Abs(), c, target);
      out := SerializeAgents(ord, st, c, out);
      out := out + EncodeRecords(unknown);
    }

    lemma PrintAgents(ord: Order, st: EpisodeState, c: Cache, target: bytes)
      ensures target + Printed(ord, EPISODE_METRIC_FACT, st.Abs(), c, 6) ==
              target + Printed(ord, EPISODE_METRIC_FACT, st.Abs(), c, 5)
              + PrintElements(ord, 5, AGENT_EPISODE_METRIC_FACT, st.agents, c, 0)
    {
      hide EpisodeState.Abs, Printed, PrintElements, EPISODE_METRIC_FACT, AGENT_EPISODE_METRIC_FACT;
      EpisodeFields();
      EpisodeSlot(st, 5);
      PrintMany(ord, EPISODE_METRIC_FACT, st.Abs(), c, 5, st.agents, target);
    }

    /** Fields 2 and 3. */
    method SerializeTexts(ghost ord: Order, ghost st: EpisodeState, ghost c: Cache, target: bytes) returns (out: bytes)
      requires Laid(agents) && st == State() && c == Caches()
      ensures out == target + Printed(ord, EPISODE_METRIC_FACT, st.Abs(), c, 5)
      ensures st == State() && c == Caches()
    {
      hide EpisodeState.Abs, Printed, EPISODE_METRIC_FACT, WriteString, AgentMessages, AgentCaches;
      ghost var (s, m) := (EPISODE_METRIC_FACT, st.Abs());
      EpisodeFields();
      PrintStart(ord, s, m, c, target);
      EpisodeSlot(st, 0);
      PrintNone(ord, s, m, c, 0, target);
      PrintNone(ord, s, m, c, 1, target);
      out := target;
      EpisodeSlot(st, 2);
      PrintStr(ord, s, m, c, 2, environmentInstanceId, target);
      if environmentInstanceId != [] { out := out + WriteString(2, environmentInstanceId); }
      EpisodeSlot(st, 3);
      PrintStr(ord, s, m, c, 3, episodeId, target);
      if episodeId != [] { out := out + WriteString(3, episodeId); }
      PrintNone(ord, s, m, c, 4, target);
    }

    lemma KidCaches()
      ensures forall i | 0 <= i < |agents| :: Kid(Caches(), 5, i) == agents[i].Caches()
    {
      hide AgentEpisodeMetricFact.Caches;
    }

    /** Field 5. */
    method SerializeAgents(ghost ord: Order, ghost st: EpisodeState, ghost c: Cache, before: bytes) returns (out: bytes)
      requires Laid(agents) && st == State() && c == Caches()
      ensures out == before + PrintElements(ord, 5, AGENT_EPISODE_METRIC_FACT, st.agents, c, 0)
      ensures st == State() && c == Caches()
    {
      hide AgentCaches, Print, WriteHeader, AgentMessages, PrintElements, AgentEpisodeMetricFact.Abs, Kid,
        AGENT_EPISODE_METRIC_FACT, AgentEpisodeMetricFact.Caches;
      ghost var ms := AgentMessages(agents);
      KidCaches();
      NoElements(ord, 5, AGENT_EPISODE_METRIC_FACT, c);
      out := before;
      for i := 0 to |agents|
        invariant out == before + PrintElements(ord, 5, AGENT_EPISODE_METRIC_FACT, ms[..i], c, 0)
        invariant forall j | 0 <= j < |agents| :: agents[j].Abs() == ms[j] && Kid(c, 5, j) == agents[j].Caches()
      {
        var agent := agents[i];
        ghost var done := PrintElements(ord, 5, AGENT_EPISODE_METRIC_FACT, ms[..i], c, 0);
        out := out + WriteHeader(5, agent.cachedSize);
        out := agent.InternalSerialize(ord, out);
        assert ms[..i + 1] == ms[..i] + [ms[i]];
        PrintElement(ord, 5, AGENT_EPISODE_METRIC_FACT, ms[..i], ms[i], c, 0);
        OwnSize(agent);
        ghost var header := WriteHeader(5, agent.cachedSize);
        ghost var content := Print(ord, AGENT_EPISODE_METRIC_FACT, agent.Abs(), agent.Caches());
        Wire.Associative(before + done, header, content);
        Wire.Associative(before, done, header + content);
      }
      assert ms[..|agents|] == ms;
      SameAgents(agents);
      SameCaches(agents);
    }

    // -------------------------------------------------------------- merge, clear, copy, swap

    /** Deep copies of agents. */
    method CopyAgents(from: seq<AgentEpisodeMetricFact>) returns (copies: seq<AgentEpisodeMetricFact>)
      requires forall a | a in from :: a.Valid()
      ensures Laid(from) && Laid(copies) && AgentMessages(copies) == AgentMessages(from) == old(AgentMessages(from))
      ensures (forall a | a in copies :: fresh(a) && a.Valid()) && forall a | a in from :: a.Valid()
    {
      hide AgentMessages, AgentEpisodeMetricFact.Abs, AgentEpisodeMetricFact.Valid;
      AllLaid(from);
      copies := [];
      for i := 0 to |from|
        invariant |copies| == i && Laid(copies) && forall j | 0 <= j < i :: copies[j].Abs() == from[j].Abs()
        invariant forall a | a in copies :: fresh(a) && a.Valid()
        invariant forall a | a in from :: a.Valid() && a.Abs() == old(a.Abs())
      {
        var copy := CopyAgent(from[i]);
        copies := copies + [copy];
      }
      assert AgentMessages(copies) == AgentMessages(from);
      SameAgents(from);
    }

    method CopyAgent(from: AgentEpisodeMetricFact) returns (copy: AgentEpisodeMetricFact)
      requires from.Valid()
      ensures fresh(copy) && copy.Valid() && copy.cells.Length == from.cells.Length == CELLS && copy.Abs() == from.Abs()
    {
      hide AgentEpisodeMetricFact.Parsing, AgentEpisodeMetricFact.State;
      copy := new AgentEpisodeMetricFact.Copy(from);
    }

    lemma AllLaid(xs: seq<AgentEpisodeMetricFact>)
      requires forall a | a in xs :: a.Valid()
      ensures Laid(xs)
    {
      hide AgentEpisodeMetricFact.Parsing;
    }

    method MergeFrom(from: EpisodeMetricFact)
      requires Valid() && from.Valid() && from != this
      modifies this
      ensures Valid() && State() == MergeEpisodes(old(State()), from.State())
      ensures Abs() == Merge(EPISODE_METRIC_FACT, old(Abs()), from.Abs())
    {
      hide EpisodeState.Abs, AgentMessages, Merge, MergeEpisodes, AgentEpisodeMetricFact.Valid, EPISODE_METRIC_FACT,
        LegalUnknown;
      MergeEpisodesIsMerge(State(), from.State());
      MergeFields(from);
    }

    method MergeFields(from: EpisodeMetricFact)
      requires Valid() && from.Valid() && from != this
      modifies this
      ensures Valid() && Laid(from.agents) && from.State() == old(from.State())
      ensures State() == MergeEpisodes(old(State()), from.State())
    {
      hide AgentMessages, AgentEpisodeMetricFact.Valid, AgentEpisodeMetricFact.Abs, LegalUnknown;
      MergeAgents(from);
      label Merged:
      MergeTexts(from);
      SameAgents@Merged(agents);
      SameAgents(from.agents);
    }

    method MergeAgents(from: EpisodeMetricFact)
      requires Valid() && from.Valid() && from != this
      modifies this`agents
      ensures Laid(agents) && Laid(from.agents) && (forall a | a in agents :: a.Valid()) &&
              forall a | a in from.agents :: a.Valid()
      ensures AgentMessages(agents) == old(AgentMessages(agents)) + AgentMessages(from.agents)
      ensures AgentMessages(from.agents) == old(AgentMessages(from.agents))
    {
      hide AgentMessages, AgentEpisodeMetricFact.Valid, AgentEpisodeMetricFact.Abs, LegalUnknown;
      var copies := CopyAgents(from.agents);
      AgentsConcat(agents, copies);
      agents := agents + copies;
      SameAgents(old(agents));
      SameAgents(from.agents);
    }

    method MergeTexts(from: EpisodeMetricFact)
      requires from != this && LegalUnknown(EPISODE_METRIC_FACT, unknown) &&
               LegalUnknown(EPISODE_METRIC_FACT, from.unknown)
      modifies this`environmentInstanceId, this`episodeId, this`unknown
      ensures environmentInstanceId == if from.environmentInstanceId != [] then from.environmentInstanceId
              else old(environmentInstanceId)
      ensures episodeId == if from.episodeId != [] then from.episodeId else old(episodeId)
      ensures unknown == old(unknown) + from.unknown && LegalUnknown(EPISODE_METRIC_FACT, unknown)
    {
      hide WFRecord, Known, EPISODE_METRIC_FACT;
      if from.environmentInstanceId != [] { environmentInstanceId := from.environmentInstanceId; }
      if from.episodeId != [] { episodeId := from.episodeId; }
      unknown := unknown + from.unknown;
    }

    method Clear()
      modifies this
      ensures Valid() && State() == NO_EPISODE && Abs() == EMPTY
    {
      hide EpisodeState.Abs;
      agents, environmentInstanceId, episodeId, unknown := [], [], [], [];
      EmptyEpisode();
    }

    method CopyFrom(from: EpisodeMetricFact)
      requires Valid() && from.Valid()
      modifies this
      ensures Valid() && State() == old(from.State())
    {
      hide EpisodeState.Abs, AgentMessages, AgentEpisodeMetricFact.Valid, AgentEpisodeMetricFact.Abs,
        EPISODE_METRIC_FACT, LegalUnknown;
      if from == this { return; }
      Clear();
      SameAgents(from.agents);
      MergeFrom(from);
      MergeOntoNone(from.State());
    }

    /** The copy constructor leaves what CopyFrom leaves. */
    constructor Copy(from: EpisodeMetricFact)
      requires from.Valid()
      ensures Valid() && State() == old(from.State())
    {
      hide EpisodeState.Abs, AgentMessages, AgentEpisodeMetricFact.Valid, AgentEpisodeMetricFact.Abs,
        EPISODE_METRIC_FACT, LegalUnknown;
      agents, cachedSize := [], 0;
      environmentInstanceId, episodeId, unknown := from.environmentInstanceId, from.episodeId, from.unknown;
      new;
      var copies := CopyAgents(from.agents);
      agents := copies;
    }

    method InternalSwap(other: EpisodeMetricFact)
      requires Valid() && other.Valid() && other != this
      modifies this, other
      ensures Valid() && other.Valid()
      ensures State() == old(other.State()) && other.State() == old(State())
    {
      hide EpisodeState.Abs, AgentMessages, AgentEpisodeMetricFact.Valid, AgentEpisodeMetricFact.Abs,
        EPISODE_METRIC_FACT, LegalUnknown;
      SwapFields(other);
      SameAgents(agents);
      SameAgents(other.agents);
    }

    method SwapFields(other: EpisodeMetricFact)
      requires other != this
      modifies this, other
      ensures unknown == old(other.unknown) && other.unknown == old(unknown)
      ensures agents == old(other.agents) && other.agents == old(agents)
      ensures environmentInstanceId == old(other.environmentInstanceId) &&
              other.environmentInstanceId == old(environmentInstanceId)
      ensures episodeId == old(other.episodeId) && other.episodeId == old(episodeId)
    {
      unknown, other.unknown := other.unknown, unknown;
      agents, other.agents := other.agents, agents;
      environmentInstanceId, other.environmentInstanceId := other.environmentInstanceId, environmentInstanceId;
      episodeId, other.episodeId := other.episodeId, episodeId;
    }
  }

  /** The size pass and the print pass over an untouched episode, three levels of cached sizes deep. */
  method Serialize(ghost ord: Order, f: EpisodeMetricFact) returns (out: bytes)
    requires ValidOrder(ord) && Laid(f.agents)
    modifies f`cachedSize, f.agents`cachedSize, Components(f.agents)`cachedSize
    ensures f.agents == old(f.agents) && f.State() == old(f.State())
    ensures out == Encode(ord, EPISODE_METRIC_FACT, f.Abs()) && |out| == f.cachedSize
  {
    hide Encode, Print, Exact, ByteSize, EpisodeState.Abs, EpisodeMetricFact.State, EpisodeMetricFact.Caches,
      EPISODE_METRIC_FACT;
    var size := f.ByteSizeLong();
    ghost var m := f.Abs();
    PrintExact(ord, EPISODE_METRIC_FACT, m, f.Caches());
    EncodedLength(ord, EPISODE_METRIC_FACT, m);
    assert size == |Encode(ord, EPISODE_METRIC_FACT, m)|;
    out := f.InternalSerialize(ord, []);
    assert [] + Encode(ord, EPISODE_METRIC_FACT, m) == Encode(ord, EPISODE_METRIC_FACT, m);
  }

  /** The strings of an agent and of its components are valid UTF-8. */
  predicate PrintableAgent(a: AgentEpisodeMetricFact)
    reads a, a.rewardComponents
  {
    && ValidUtf8(a.terminationReason) && ValidUtf8(a.behaviorModelLineageId)
    && forall c | c in a.rewardComponents :: ValidUtf8(c.fieldId)
  }

  predicate Printable(f: EpisodeMetricFact)
    reads f, f.agents, Components(f.agents)
  {
    && ValidUtf8(f.environmentInstanceId) && ValidUtf8(f.episodeId)
    && forall a | a in f.agents :: Footprint(f.agents, a); PrintableAgent(a)
  }

  lemma AgentLegal(a: AgentEpisodeMetricFact)
    requires a.Valid() && PrintableAgent(a)
    ensures WF(AGENT_EPISODE_METRIC_FACT, a.Abs())
  {
    hide WF, ValidUtf8, FactState.Abs, RawMetricSumCount.Abs, LegalUnknown, AGENT_EPISODE_METRIC_FACT,
      RAW_METRIC_SUM_COUNT;
    forall c | c in a.rewardComponents
      ensures WF(RAW_METRIC_SUM_COUNT, c.Abs())
    {
      c.Legal();
    }
    LegalState(a.State(a.hasBits));
  }

  /** What an episode holds is a legal message as soon as its strings are valid. */
  lemma {:induction false} EpisodeLegal(f: EpisodeMetricFact)
    requires f.Valid() && Laid(f.agents) && Printable(f)
    ensures WF(EPISODE_METRIC_FACT, f.Abs())
  {
    hide WF, ValidUtf8, AgentMessages, AgentEpisodeMetricFact.Valid, AgentEpisodeMetricFact.Abs, PrintableAgent,
      LegalUnknown, EPISODE_METRIC_FACT, AGENT_EPISODE_METRIC_FACT;
    EpisodeFields();
    forall a | a in f.agents
      ensures WF(AGENT_EPISODE_METRIC_FACT, a.Abs())
    {
      AgentLegal(a);
    }
    BuildLegal(EPISODE_METRIC_FACT, f.State().Slots(), f.unknown);
  }

  /** What one episode prints another reads back. */
  method Transfer(ghost ord: Order, from: EpisodeMetricFact, to: EpisodeMetricFact) returns (ok: bool)
    requires ValidOrder(ord) && from.Valid() && Laid(from.agents) && from != to && Printable(from)
    requires ByteSize(EPISODE_METRIC_FACT, from.Abs()) <= MAX_SIZE
    modifies from`cachedSize, from.agents`cachedSize, Components(from.agents)`cachedSize, to
    ensures ok && to.Valid() && to.Abs() == old(from.Abs())
  {
    hide Parse, Encode, ByteSize, EpisodeState.Abs, EpisodeMetricFact.State, WF, Printable, EPISODE_METRIC_FACT,
      EpisodeMetricFact.Valid;
    EpisodeLegal(from);
    EpisodeFactTable();
    EncodedLength(ord, EPISODE_METRIC_FACT, from.Abs());
    RoundTrips(ord, EPISODE_METRIC_FACT, from.Abs());
    var out := Serialize(ord, from);
    to.Clear();
    assert out[0..|out|] == out;
    var st := to.InternalParse(out, 0, |out|);
    ok := st == AtLimit;
  }

  /** Merging into an empty episode copies it. */
  lemma MergeOntoNone(b: EpisodeState)
    ensures MergeEpisodes(NO_EPISODE, b) == b
  {
    assert [] + b.agents == b.agents && [] + b.unknown == b.unknown;
  }
}
