/** Reading a task's text: artifacts, then agent history, then `status.message` as a last resort. */
module A2aRender {
  import opened Prelude
  import opened A2aTables

  datatype EmptyKind = NoSliceCarried | SlicesUnreadable

  /** Why a rendering produced nothing, and what was inspected to find out. */
  datatype RenderEmpty = RenderEmpty(
    taskId: string, context: Option<string>, kind: EmptyKind, artifacts: nat, artifactParts: nat,
    history: nat, agentHistory: nat, agentHistoryParts: nat, statusMessage: bool, statusMessageParts: nat)

  // ---------------------------------------------------------------- what is collected

  function PartText(part: Part): string
  {
    match part
    case TextPart(text) => text
    case FilePart(name) => "[file: " + (if name.Some? then name.value else "unnamed") + "]"
    case DataPart => "[data]"
  }

  function Texts(parts: seq<Part>): seq<string>
  {
    seq(|parts|, i requires 0 <= i < |parts| => PartText(parts[i]))
  }

  function ArtifactTexts(artifacts: seq<Artifact>): seq<string>
  {
    if artifacts == [] then []
    else ArtifactTexts(artifacts[..|artifacts| - 1]) + Texts(artifacts[|artifacts| - 1].parts)
  }

  function AgentTexts(messages: seq<Message>): seq<string>
  {
    if messages == [] then []
    else
      var last := messages[|messages| - 1];
      AgentTexts(messages[..|messages| - 1]) + (if last.speaker == Agent then Texts(last.parts) else [])
  }

  function OrNone<T>(list: Option<seq<T>>): seq<T>
  {
    if list.Some? then list.value else []
  }

  function MessageParts(m: Option<Message>): seq<Part>
  {
    if m.Some? then m.value.parts else []
  }

  /** The texts of tiers one and two, or those of tier three when there are none. */
  function Collected(task: Task): seq<string>
  {
    var main := ArtifactTexts(OrNone(task.artifacts)) + AgentTexts(OrNone(task.history));
    if main != [] then main else Texts(MessageParts(task.statusMessage))
  }

  function JoinParagraphs(texts: seq<string>): string
  {
    if texts == [] then "" else if |texts| == 1 then texts[0] else texts[0] + "\n\n" + JoinParagraphs(texts[1..])
  }

  function AgentCount(messages: seq<Message>): nat
  {
    if messages == [] then 0
    else AgentCount(messages[..|messages| - 1]) + (if messages[|messages| - 1].speaker == Agent then 1 else 0)
  }

  function KindOf(task: Task): EmptyKind
  {
    if OrNone(task.artifacts) == [] && OrNone(task.history) == [] && task.statusMessage.None? then NoSliceCarried
    else SlicesUnreadable
  }

  function Render(task: Task): Result<string, RenderEmpty>
  {
    var text := JoinParagraphs(Collected(task));
    if text != "" then Ok(text)
    else Err(RenderEmpty(
      task.id, task.context, KindOf(task), |OrNone(task.artifacts)|, |ArtifactTexts(OrNone(task.artifacts))|,
      |OrNone(task.history)|, AgentCount(OrNone(task.history)), |AgentTexts(OrNone(task.history))|,
      task.statusMessage.Some?, |MessageParts(task.statusMessage)|))
  }

  // ---------------------------------------------------------------- the renderer's loops

  method PushParts(parts: seq<Part>, texts: seq<string>) returns (more: seq<string>)
    ensures more == texts + Texts(parts)
  {
    more := texts;
    for i := 0 to |parts|
      invariant more == texts + Texts(parts[..i])
    {
      more := more + [PartText(parts[i])];
      assert Texts(parts[..i + 1]) == Texts(parts[..i]) + [PartText(parts[i])];
    }
    assert parts[..|parts|] == parts;
  }

  method CollectArtifacts(artifacts: seq<Artifact>) returns (texts: seq<string>, parts: nat)
    ensures texts == ArtifactTexts(artifacts) && parts == |texts|
  {
    texts, parts := [], 0;
    for i := 0 to |artifacts|
      invariant texts == ArtifactTexts(artifacts[..i]) && parts == |texts|
    {
      assert artifacts[..i + 1][..i] == artifacts[..i];
      parts := parts + |artifacts[i].parts|;
      texts := PushParts(artifacts[i].parts, texts);
    }
    assert artifacts[..|artifacts|] == artifacts;
  }

  method CollectHistory(messages: seq<Message>, texts: seq<string>) returns (more: seq<string>, agents: nat, parts: nat)
    ensures more == texts + AgentTexts(messages) && agents == AgentCount(messages) && parts == |AgentTexts(messages)|
  {
    more, agents, parts := texts, 0, 0;
    for i := 0 to |messages|
      invariant more == texts + AgentTexts(messages[..i])
      invariant agents == AgentCount(messages[..i]) && parts == |AgentTexts(messages[..i])|
    {
      assert messages[..i + 1][..i] == messages[..i];
      if messages[i].speaker == Agent {
        agents := agents + 1;
        parts := parts + |messages[i].parts|;
        more := PushParts(messages[i].parts, more);
      }
    }
    assert messages[..|messages|] == messages;
  }

  method RenderTaskText(task: Task) returns (r: Result<string, RenderEmpty>)
    ensures r == Render(task)
  {
    var artifacts, history := OrNone(task.artifacts), OrNone(task.history);
    var texts, artifactParts := CollectArtifacts(artifacts);
    var agents, agentParts;
    texts, agents, agentParts := CollectHistory(history, texts);
    if texts == [] && task.statusMessage.Some? {
      texts := PushParts(task.statusMessage.value.parts, texts);
    }
    assert texts == Collected(task);
    var rendered := JoinParagraphs(texts);
    if rendered != "" { return Ok(rendered); }
    var kind := if |artifacts| == 0 && |history| == 0
      && task.statusMessage.None? then NoSliceCarried else SlicesUnreadable;
    r := Err(RenderEmpty(task.id, task.context, kind, |artifacts|, artifactParts, |history|, agents, agentParts,
                         task.statusMessage.Some?, |MessageParts(task.statusMessage)|));
  }

  // ---------------------------------------------------------------- what it guarantees

  /** Rendering fails exactly when nothing was collected or one empty text was. */
  lemma RenderFailsExactly(task: Task)
    ensures Render(task).Err? <==> Collected(task) == [] || Collected(task) == [""]
  {
    var texts := Collected(task);
    if |texts| == 1 { assert texts == [texts[0]]; }
    if |texts| > 1 { assert |JoinParagraphs(texts)| >= 2; }
  }

  /** A text verbatim, a file by its name, data as such. */
  lemma PartsRenderAs(text: string, name: string)
    ensures PartText(TextPart(text)) == text
    ensures PartText(FilePart(Some(name))) == "[file: " + name + "]" && PartText(FilePart(None)) == "[file: unnamed]"
    ensures PartText(DataPart) == "[data]"
  {
  }

  /** A blank line between any two texts, and nothing else added. */
  lemma {:induction false} ParagraphsJoin(a: seq<string>, b: seq<string>, text: string)
    requires a != [] && b != []
    ensures JoinParagraphs([text]) == text
    ensures JoinParagraphs(a + b) == JoinParagraphs(a) + "\n\n" + JoinParagraphs(b)
  {
    if |a| == 1 {
      assert (a + b)[1..] == b;
    } else {
      assert (a + b)[1..] == a[1..] + b;
      ParagraphsJoin(a[1..], b, text);
      assert a[0] + "\n\n" + (JoinParagraphs(a[1..]) + "\n\n" + JoinParagraphs(b))
          == a[0] + "\n\n" + JoinParagraphs(a[1..]) + "\n\n" + JoinParagraphs(b);
    }
  }

  /** Artifacts come first and the agent's messages after them, a blank line between; the status adds nothing then. */
  lemma ArtifactsComeFirst(task: Task)
    requires ArtifactTexts(OrNone(task.artifacts)) != [] && AgentTexts(OrNone(task.history)) != []
    ensures Render(task) == Ok(
      JoinParagraphs(ArtifactTexts(OrNone(task.artifacts))) + "\n\n" + JoinParagraphs(AgentTexts(OrNone(task.history))))
  {
    ParagraphsJoin(ArtifactTexts(OrNone(task.artifacts)), AgentTexts(OrNone(task.history)), "");
  }

  /** What the user said is not rendered; what the agent said is, message by message. */
  lemma {:induction false} AgentTextsExactly(messages: seq<Message>, m: Message)
    ensures AgentTexts(messages + [m]) ==
      if m.speaker == Agent then AgentTexts(messages) + Texts(m.parts) else AgentTexts(messages)
  {
    assert (messages + [m])[..|messages|] == messages;
    assert AgentTexts(messages) + [] == AgentTexts(messages);
  }

  lemma {:induction false} LastAgentSpeaks(messages: seq<Message>)
    ensures LastAgent(messages).Some? ==> messages != [] && |AgentTexts(messages)| >= |LastAgent(messages).value.parts|
    ensures LastAgent(messages).Some? ==>
      LastAgent(messages).value.speaker == Agent && LastAgent(messages).value in messages
  {
    if messages != [] && messages[|messages| - 1].speaker != Agent {
      LastAgentSpeaks(messages[..|messages| - 1]);
    }
  }

  /**
   On a task built from the store the third tier is redundant: taking `status.message` away changes neither
   the text nor whether there is one nor the kind of emptiness. The reply is reported absent exactly when
   both reads behind the task came back empty.
   */
  lemma ThirdTierIsRedundant(t: Tables, id: string, limit: Option<int>)
    requires BuildTask(t, id, limit).Ok? && BuildTask(t, id, limit).value.Some?
    ensures var task := BuildTask(t, id, limit).value.value; var bare := task.(statusMessage := None);
      && Collected(bare) == Collected(task)
      && (Render(task).Ok? ==> Render(bare) == Render(task))
      && (Render(task).Err? ==> Render(bare).Err? && Render(bare).error.kind == Render(task).error.kind)
      && ((Render(task).Err? && Render(task).error.kind == NoSliceCarried)
          <==> GetMessages(t, id, limit) == [] && GetArtifacts(t, id) == [])
  {
    var task := BuildTask(t, id, limit).value.value;
    var history := GetMessages(t, id, limit);
    LastAgentSpeaks(history);
    assert OrNone(task.history) == history && OrNone(task.artifacts) == GetArtifacts(t, id);
    assert task.statusMessage == LastAgent(history);
    BareCollects(task);
  }

  lemma BareCollects(task: Task)
    requires task.statusMessage == LastAgent(OrNone(task.history))
    ensures Collected(task.(statusMessage := None)) == Collected(task)
  {
    LastAgentSpeaks(OrNone(task.history));
    if ArtifactTexts(OrNone(task.artifacts)) + AgentTexts(OrNone(task.history)) == [] {
      assert AgentTexts(OrNone(task.history)) == [];
      assert Texts(MessageParts(task.statusMessage)) == [];
    }
  }
}
