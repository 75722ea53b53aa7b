/**
 The impart action: a senior avatar passes cultivation experience to a
 downstream junior. Its start gate checks observation range, then lineage,
 then the level gap; its lifecycle records whether the junior accepted and
 how much experience was granted.
 */
module ImpartAction {
  import opened Lineage
  import LineageSearch

  datatype Option<T> = None | Some(value: T)

  /** Caps on the two lineage axes and the edge kinds the action follows. */
  const MaxDepthFamily: nat := 2
  const MaxDepthSect: nat := 2
  const DownwardEdgeRelations: set<Relation> := {IsChildOf, IsDiscipleOf}

  /** The giver must be at least this many levels above the target. */
  const RequiredLevelGap: int := 20

  /** Experience granted when the junior accepts. */
  const ImpartExpGain: int := 100 * 5 * 4

  /** The feedback that means the junior accepts. */
  const AcceptFeedback: string := "Accept"

  /** Why the action may not start, in the order the gate checks. */
  datatype Refusal = OutOfRange | NotDownstreamJunior | LevelGapTooSmall(gap: int)

  datatype Verdict = Allowed | Refused(reason: Refusal)

  /** What the action reports: its start, naming the avatars involved, and
      the experience the junior gained. */
  datatype Event = Imparted(related: seq<Id>) | ExpGained(related: seq<Id>, gain: int)

  /** The start gate as a guard chain: observation range first, then lineage,
      then the level gap; the first failing check decides the refusal. */
  function StartGate(withinObservation: bool, downstreamJunior: bool, levelDiff: int): (v: Verdict)
    ensures v == Allowed <==> withinObservation && downstreamJunior && levelDiff >= RequiredLevelGap
    ensures !withinObservation ==> v == Refused(OutOfRange)
    ensures withinObservation && !downstreamJunior ==> v == Refused(NotDownstreamJunior)
    ensures withinObservation && downstreamJunior && levelDiff < RequiredLevelGap ==>
              v == Refused(LevelGapTooSmall(levelDiff))
  {
    if !withinObservation then Refused(OutOfRange)
    else if !downstreamJunior then Refused(NotDownstreamJunior)
    else if levelDiff < RequiredLevelGap then Refused(LevelGapTooSmall(levelDiff))
    else Allowed
  }

  /** The characters Python's `str.strip()` removes: those for which
      `str.isspace()` holds. */
  const PythonWhitespace: set<char> := {
    '\t', '\n', '\U{000B}', '\U{000C}', '\r', '\U{001C}', '\U{001D}', '\U{001E}', '\U{001F}',
    ' ', '\U{0085}', '\U{00A0}', '\U{1680}',
    '\U{2000}', '\U{2001}', '\U{2002}', '\U{2003}', '\U{2004}', '\U{2005}',
    '\U{2006}', '\U{2007}', '\U{2008}', '\U{2009}', '\U{200A}',
    '\U{2028}', '\U{2029}', '\U{202F}', '\U{205F}', '\U{3000}'
  }

  /** Every character of `s` is one of `ws`. */
  predicate AllIn(s: string, ws: set<char>)
  {
    forall i | 0 <= i < |s| :: s[i] in ws
  }

  /** `s` without its leading characters from `ws`. */
  function TrimStart(s: string, ws: set<char>): (r: string)
    ensures |r| <= |s| && r == s[|s| - |r|..]
    ensures AllIn(s[..|s| - |r|], ws)
    ensures r != [] ==> r[0] !in ws
  {
    if s != [] && s[0] in ws then
      var r := TrimStart(s[1..], ws);
      assert s[..|s| - |r|] == [s[0]] + s[1..][..|s| - 1 - |r|];
      r
    else s
  }

  /** `s` without its trailing characters from `ws`. */
  function TrimEnd(s: string, ws: set<char>): (r: string)
    ensures |r| <= |s| && r == s[..|r|]
    ensures AllIn(s[|r|..], ws)
    ensures r != [] ==> r[|r| - 1] !in ws
  {
    if s != [] && s[|s| - 1] in ws then
      var r := TrimEnd(s[..|s| - 1], ws);
      assert s[|r|..] == s[..|s| - 1][|r|..] + [s[|s| - 1]];
      r
    else s
  }

  /** The length of the leading run of characters from `ws` in `s`. */
  function Leading(s: string, ws: set<char>): (n: nat)
    ensures n <= |s| && AllIn(s[..n], ws)
    ensures n < |s| ==> s[n] !in ws
  {
    |s| - |TrimStart(s, ws)|
  }

  /** `s` trimmed at both ends of the characters in `ws`: the part of `s` that
      follows its leading run of `ws`, with everything of `s` outside it in `ws`. */
  function Trim(s: string, ws: set<char>): (r: string)
    ensures r != [] ==> r[0] !in ws && r[|r| - 1] !in ws
    ensures Leading(s, ws) + |r| <= |s|
    ensures r == s[Leading(s, ws)..Leading(s, ws) + |r|]
    ensures AllIn(s[Leading(s, ws) + |r|..], ws)
  {
    var t := TrimStart(s, ws);
    var r := TrimEnd(t, ws);
    assert s[|s| - |t| + |r|..] == t[|r|..];
    r
  }

  /** Python's `str.strip()`. */
  function Strip(s: string): string
  {
    Trim(s, PythonWhitespace)
  }

  lemma {:induction false} TrimStartPadded(pre: string, s: string, ws: set<char>)
    requires AllIn(pre, ws) && (s != [] ==> s[0] !in ws)
    ensures TrimStart(pre + s, ws) == s
    decreases |pre|
  {
    if pre != [] {
      assert (pre + s)[1..] == pre[1..] + s;
      TrimStartPadded(pre[1..], s, ws);
    } else {
      assert pre + s == s;
    }
  }

  lemma {:induction false} TrimEndPadded(s: string, post: string, ws: set<char>)
    requires AllIn(post, ws) && (s != [] ==> s[|s| - 1] !in ws)
    ensures TrimEnd(s + post, ws) == s
    decreases |post|
  {
    if post != [] {
      assert (s + post)[..|s + post| - 1] == s + post[..|post| - 1];
      TrimEndPadded(s, post[..|post| - 1], ws);
    } else {
      assert s + post == s;
    }
  }

  /** Trimming removes exactly the surrounding run: a text that neither starts
      nor ends with a character of `ws`, padded with such characters, trims
      back to itself. */
  lemma TrimPadded(pre: string, core: string, post: string, ws: set<char>)
    requires AllIn(pre, ws) && AllIn(post, ws)
    requires core != [] ==> core[0] !in ws && core[|core| - 1] !in ws
    ensures Trim(pre + core + post, ws) == core
  {
    assert pre + core + post == pre + (core + post);
    if core == [] {
      assert core + post == post && pre + post + [] == pre + post;
      assert AllIn(pre + post, ws) by {
        forall i | 0 <= i < |pre + post| ensures (pre + post)[i] in ws {
          if i < |pre| { assert (pre + post)[i] == pre[i]; }
          else { assert (pre + post)[i] == post[i - |pre|]; }
        }
      }
      TrimStartPadded(pre + post, [], ws);
    } else {
      TrimStartPadded(pre, core + post, ws);
      TrimEndPadded(core, post, ws);
    }
  }

  /** `s` is `word` padded at both ends with characters of `ws`, the word
      starting at position `i`. */
  predicate PaddedAt(s: string, ws: set<char>, word: string, i: int)
  {
    && 0 <= i <= |s| - |word|
    && s[i..i + |word|] == word
    && AllIn(s[..i], ws)
    && AllIn(s[i + |word|..], ws)
  }

  lemma PaddedTrims(s: string, ws: set<char>, word: string, i: int)
    requires word != [] && word[0] !in ws && word[|word| - 1] !in ws
    requires PaddedAt(s, ws, word, i)
    ensures Trim(s, ws) == word
  {
    assert s == s[..i] + s[i..i + |word|] + s[i + |word|..];
    TrimPadded(s[..i], word, s[i + |word|..], ws);
  }

  /** A word that neither starts nor ends with a character of `ws` is what
      `s` trims to exactly when `s` is that word padded at both ends with
      characters of `ws`. */
  lemma TrimsTo(s: string, ws: set<char>, word: string)
    requires word != [] && word[0] !in ws && word[|word| - 1] !in ws
    ensures Trim(s, ws) == word <==> exists i :: PaddedAt(s, ws, word, i)
  {
    if Trim(s, ws) == word {
      assert PaddedAt(s, ws, word, Leading(s, ws));
    }
    forall i | PaddedAt(s, ws, word, i) ensures Trim(s, ws) == word {
      PaddedTrims(s, ws, word, i);
    }
  }

  /** The feedback is taken as acceptance exactly when it is "Accept" with
      nothing but Python whitespace around it. */
  lemma AcceptedFeedback(feedback: string)
    ensures Strip(feedback) == AcceptFeedback <==>
            exists i :: PaddedAt(feedback, PythonWhitespace, AcceptFeedback, i)
  {
    assert 'A' !in PythonWhitespace && 't' !in PythonWhitespace;
    TrimsTo(feedback, PythonWhitespace, AcceptFeedback);
  }

  /** An avatar as the action sees it: identity, cultivation level and an
      experience counter. */
  class Avatar {
    const id: Id
    var level: int
    var exp: int

    constructor (id: Id, level: int)
      ensures this.id == id && this.level == level && exp == 0
    {
      this.id := id;
      this.level := level;
      exp := 0;
    }

    /** Adds to the experience counter; what else the game does with the
        experience is not part of this model. */
    method AddExp(amount: int)
      modifies this
      ensures exp == old(exp) + amount
    {
      exp := exp + amount;
    }
  }

  /** One impart action, initiated by `giver`. `success` and `expGain` are set
      by the lifecycle methods and read when the action finishes. */
  class Impart {
    const giver: Avatar
    var success: bool
    var expGain: int

    constructor (giver: Avatar)
      ensures this.giver == giver && !success && expGain == 0
    {
      this.giver := giver;
      success := false;
      expGain := 0;
    }

    /** `target` is a downstream junior of the giver: both descent kinds,
        family and sect depth each capped at 2. */
    method IsAllowedDownwardTarget(g: Graph, target: Avatar) returns (allowed: bool)
      ensures allowed <==> IsLineageDescendant(g, giver.id, target.id, DownwardEdgeRelations,
                                               MaxDepthFamily, MaxDepthSect)
    {
      ghost var explored;
      allowed, explored := LineageSearch.IsDescendantByRelation(
        g, giver.id, target.id, DownwardEdgeRelations, MaxDepthFamily, MaxDepthSect);
    }

    /** The start gate. Whether the target is within observation range is
        decided elsewhere and given as `withinObservation`; the lineage search
        runs only when it holds. */
    method CanStart(g: Graph, target: Avatar, withinObservation: bool) returns (v: Verdict)
      ensures v == StartGate(withinObservation,
                             IsLineageDescendant(g, giver.id, target.id, DownwardEdgeRelations,
                                                 MaxDepthFamily, MaxDepthSect),
                             giver.level - target.level)
    {
      if !withinObservation {
        return Refused(OutOfRange);
      }
      var allowed := IsAllowedDownwardTarget(g, target);
      if !allowed {
        return Refused(NotDownstreamJunior);
      }
      var levelDiff := giver.level - target.level;
      if levelDiff < RequiredLevelGap {
        return Refused(LevelGapTooSmall(levelDiff));
      }
      return Allowed;
    }

    /** Starts the action: clears the outcome of any earlier round and
        reports the giver and, when it was found, the target. */
    method Start(target: Option<Avatar>) returns (e: Event)
      modifies this
      ensures !success && expGain == 0
      ensures e == Imparted(if target.Some? then [giver.id, target.value.id] else [giver.id])
    {
      var related := [giver.id];
      if target.Some? {
        related := related + [target.value.id];
      }
      e := Imparted(related);
      success := false;
      expGain := 0;
    }

    /** Records the target's answer: only "Accept", once stripped, grants the
        experience and marks the action successful. */
    method SettleFeedback(target: Avatar, feedback: string)
      modifies this, target
      ensures Strip(feedback) == AcceptFeedback ==>
                success && expGain == ImpartExpGain && target.exp == old(target.exp) + ImpartExpGain
      ensures Strip(feedback) != AcceptFeedback ==>
                !success && expGain == old(expGain) && unchanged(target)
    {
      var fb := Strip(feedback);
      if fb == AcceptFeedback {
        ApplyImpartGain(target);
        success := true;
      } else {
        success := false;
      }
    }

    /** Grants the fixed experience to the target and remembers the amount. */
    method ApplyImpartGain(target: Avatar)
      modifies this, target
      ensures expGain == ImpartExpGain && success == old(success)
      ensures target.exp == old(target.exp) + ImpartExpGain
    {
      var gain := 100 * 5 * 4;
      target.AddExp(gain);
      expGain := gain;
    }

    /** Finishes the action: one event reporting the gain when the target is
        known and accepted, none otherwise. */
    method Finish(target: Option<Avatar>) returns (events: seq<Event>)
      ensures target.None? || !success ==> events == []
      ensures target.Some? && success ==> events == [ExpGained([giver.id, target.value.id], expGain)]
    {
      events := [];
      if target.None? {
        return;
      }
      if success {
        events := events + [ExpGained([giver.id, target.value.id], expGain)];
      }
    }
  }

  /** A whole round of the action against a known target: the round reports
      one gain event, of the fixed amount, exactly when the feedback is an
      acceptance, and only then does the target's experience grow. */
  method ImpartRound(giver: Avatar, target: Avatar, feedback: string) returns (events: seq<Event>)
    modifies target
    ensures |events| == (if Strip(feedback) == AcceptFeedback then 1 else 0)
    ensures Strip(feedback) == AcceptFeedback ==>
              events[0] == ExpGained([giver.id, target.id], ImpartExpGain) &&
              target.exp == old(target.exp) + ImpartExpGain
    ensures Strip(feedback) != AcceptFeedback ==> target.exp == old(target.exp)
  {
    var action := new Impart(giver);
    var _ := action.Start(Some(target));
    action.SettleFeedback(target, feedback);
    events := action.Finish(Some(target));
  }
}
