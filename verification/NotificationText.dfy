/** What the text of a notification says, and that nothing of it is lost. */
module NotificationText {
  import opened DecimalText
  import opened Comparison
  import opened Tables
  import opened Notifications

  function Name(t: ResultType): string {
    match t
    case NotFound => "NotFound"
    case Divergent => "Divergent"
    case Match => "Match"
    case BuildFailed => "Failed to build message"
  }

  // What follows: of a NotFound, which side had nothing to compare
  function Side(r: ComparisonResult): string {
    if r.resultType != NotFound then ": "
    else if r.localAttestation.None? then " for local attestation: "
    else " for remote attestations: "
  }

  /** The text names the type of the result, its deployment and its block. */
  lemma ShownText(r: ComparisonResult)
    ensures Shown(r) ==
            Name(r.resultType) + Side(r) + "deployment " + r.deployment + " at block " + Render(r.blockNumber)
  {
    assert TypeName(r.resultType) == Name(r.resultType);
    Associate(Name(r.resultType), Side(r), "deployment ", r.deployment, " at block ", Render(r.blockNumber));
  }

  lemma Associate(name: string, missing: string, before: string, deployment: string, after: string, number: string)
    ensures name + missing + (before + deployment + after + number) ==
            name + missing + before + deployment + after + number
  {
  }

  predicate NoSpace(s: string) {
    forall i :: 0 <= i < |s| ==> s[i] != ' '
  }

  lemma SpaceBetween(x: string, s: string, k: nat)
    ensures (x + [' '] + s)[|x|] == ' '
    ensures |x| < k <= |x| + |s| ==> (x + [' '] + s)[k] == s[k - |x| - 1]
  {
  }

  lemma NotShorter(x: string, y: string, s: string, t: string)
    requires NoSpace(t) && x + [' '] + s == y + [' '] + t
    ensures |t| <= |s|
  {
    assert |x + [' '] + s| == |x| + 1 + |s| && |y + [' '] + t| == |y| + 1 + |t|;
    SpaceBetween(x, s, |x|);
    SpaceBetween(y, t, |x|);
  }

  lemma AfterLastSpace(x: string, y: string, s: string, t: string)
    requires NoSpace(s) && NoSpace(t) && x + [' '] + s == y + [' '] + t
    ensures x == y && s == t
  {
    var left, right := x + [' '] + s, y + [' '] + t;
    NotShorter(x, y, s, t);
    NotShorter(y, x, t, s);
    assert |left| == |x| + 1 + |s| && |right| == |y| + 1 + |t|;
    assert left[..|x|] == x && right[..|y|] == y && left[|x| + 1..] == s && right[|y| + 1..] == t;
  }

  lemma CommonCharacter(p: string, q: string, x: string, y: string, k: nat)
    requires p + x == q + y && k < |p| && k < |q|
    ensures p[k] == q[k]
  {
    assert (p + x)[k] == p[k] && (q + y)[k] == q[k];
  }

  lemma CommonLead(p: string, x: string, y: string)
    requires p + x == p + y
    ensures x == y
  {
    assert (p + x)[|p|..] == x && (p + y)[|p|..] == y;
  }

  lemma SameLead(r: ComparisonResult, other: ComparisonResult, x: string, y: string)
    requires Name(r.resultType) + Side(r) + x == Name(other.resultType) + Side(other) + y
    ensures r.resultType == other.resultType && x == y
  {
    var p, q := Name(r.resultType), Name(other.resultType);
    assert p + Side(r) + x == p + (Side(r) + x) && q + Side(other) + y == q + (Side(other) + y);
    FirstLetters(r.resultType, other.resultType);
    CommonCharacter(p, q, Side(r) + x, Side(other) + y, 0);
    CommonLead(p, Side(r) + x, Side(other) + y);
    SidesDiffer(r, other);
    if Side(r) != Side(other) {
      CommonCharacter(Side(r), Side(other), x, y, 5);
    } else {
      CommonLead(Side(r), x, y);
    }
  }

  lemma FirstLetters(t: ResultType, u: ResultType)
    ensures Name(t)[0] == Name(u)[0] <==> t == u
  {
    assert "NotFound"[0] == 'N' && "Divergent"[0] == 'D' && "Match"[0] == 'M' && "Failed to build message"[0] == 'F';
  }

  lemma SidesDiffer(r: ComparisonResult, other: ComparisonResult)
    ensures r.resultType == other.resultType && Side(r) != Side(other) ==>
              |Side(r)| > 5 && |Side(other)| > 5 && Side(r)[5] != Side(other)[5]
  {
    assert " for local attestation: "[5] == 'l' && " for remote attestations: "[5] == 'r';
  }

  lemma SameMiddle(x: string, d: string, e: string, z: string)
    requires x + d + z == x + e + z
    ensures d == e
  {
    var left, right := x + d + z, x + e + z;
    assert |d| == |e|;
    assert left[|x|..|x| + |d|] == d && right[|x|..|x| + |d|] == e;
  }

  lemma Regroup(lead: string, before: string, deployment: string, after: string, number: string)
    ensures lead + before + deployment + (after + [' ']) + number ==
            lead + (before + deployment + after) + [' '] + number
  {
  }

  lemma ShownGroups(r: ComparisonResult)
    ensures Shown(r) == Name(r.resultType) + Side(r) + ("deployment " + r.deployment + " at block")
                          + [' '] + Render(r.blockNumber)
  {
    ShownText(r);
    assert " at block " == " at block" + [' '];
    Regroup(Name(r.resultType) + Side(r), "deployment ", r.deployment, " at block", Render(r.blockNumber));
  }

  /** Two results with the same text have the same type, deployment and block. */
  lemma TextTellsAll(r: ComparisonResult, other: ComparisonResult)
    requires Shown(r) == Shown(other)
    ensures r.resultType == other.resultType && r.deployment == other.deployment && r.blockNumber == other.blockNumber
  {
    ShownGroups(r);
    ShownGroups(other);
    TellAll(r, other, "deployment ", " at block");
  }

  lemma TellAll(r: ComparisonResult, other: ComparisonResult, before: string, after: string)
    requires Name(r.resultType) + Side(r) + (before + r.deployment + after) + [' '] + Render(r.blockNumber) ==
             Name(other.resultType) + Side(other) + (before + other.deployment + after) + [' ']
               + Render(other.blockNumber)
    ensures r.resultType == other.resultType && r.deployment == other.deployment && r.blockNumber == other.blockNumber
  {
    var d, e := before + r.deployment + after, before + other.deployment + after;
    var p, q := Name(r.resultType) + Side(r) + d, Name(other.resultType) + Side(other) + e;
    AfterLastSpace(p, q, Render(r.blockNumber), Render(other.blockNumber));
    RenderInjective(r.blockNumber, other.blockNumber);
    SameLead(r, other, d, e);
    SameMiddle(before, r.deployment, other.deployment, after);
  }
}
