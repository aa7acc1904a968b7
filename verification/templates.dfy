/**
  A caller as its template renders it (templates/security.yml, templates/security-smoke.yml): a text
  with one call, whose permissions and triggers are already complete.
 */
module Templates {
  import opened Wrappers
  import opened Text
  import opened Pins
  import opened Pinned
  import opened Lines
  import opened Permissions
  import opened Trigger
  import opened WorkflowLaws

  /** What stands before the pin, with group 1 of the pattern apart, and what stands behind it. */
  datatype Caller = Caller(head: string, prefix: string, tail: string)

  /** The template with the pin filled in. */
  function CallerText(c: Caller, p: Pin): string {
    c.head + (c.prefix + (PinText(p) + c.tail))
  }

  ghost predicate HasPrefix(callees: seq<string>, c: Caller) {
    PrefixAt(callees, c.prefix) == Some(|c.prefix|)
  }

  /** The one call of the text: nothing is glued to its pin, and no other `uses:` is there. */
  ghost predicate IsCaller(callees: seq<string>, c: Caller, p: Pin) {
    && HasPrefix(callees, c)
    && (c.tail == "" || IsSpace(c.tail[0]))
    && forall i: nat :: i <= |CallerText(c, p)| && StartsWith(CallerText(c, p)[i..], USES) ==> i == |c.head|
  }

  // ------------------------------------------------------------------- the pin

  lemma {:induction false} HasPinBehind(callees: seq<string>, a: string, b: string)
    requires HasPin(callees, b)
    ensures HasPin(callees, a + b)
  {
    if a == "" {
      assert a + b == b;
    } else {
      assert (a + b)[1..] == a[1..] + b;
      HasPinBehind(callees, a[1..], b);
    }
  }

  lemma PinIsThere(callees: seq<string>, prefix: string, p: Pin, rest: string)
    requires AreCallees(callees) && IsPin(p) && PrefixAt(callees, prefix) == Some(|prefix|)
    ensures HasPin(callees, prefix + (PinText(p) + rest))
  {
    RefOfPin(p, rest);
    PinAfterPrefix(callees, prefix, PinText(p) + rest);
  }

  /** Whatever follows, the text has a pin. */
  lemma CallerHasPin(callees: seq<string>, c: Caller, p: Pin, rest: string)
    requires AreCallees(callees) && IsPin(p) && HasPrefix(callees, c)
    ensures HasPin(callees, CallerText(c, p) + rest)
  {
    PinIsThere(callees, c.prefix, p, c.tail + rest);
    HasPinBehind(callees, c.head, c.prefix + (PinText(p) + (c.tail + rest)));
    CallerAndRest(c.head, c.prefix, PinText(p), c.tail, rest);
  }

  lemma CallerAndRest(a: string, b: string, c: string, d: string, e: string)
    ensures a + (b + (c + d)) + e == a + (b + (c + (d + e)))
  {}

  lemma CallerIsPinned(callees: seq<string>, c: Caller, p: Pin)
    requires AreCallees(callees) && IsPin(p) && IsCaller(callees, c, p)
    ensures AllPinned(callees, p, CallerText(c, p))
  {
    var text := CallerText(c, p);
    PinnedFirst(callees, c.prefix, p, c.tail);
    Rejoin(c.prefix, PinText(p), c.tail);
    assert text[|c.head|..] == c.prefix + (PinText(p) + c.tail);
    forall i | 0 <= i <= |text| && PinAt(callees, text[i..]).Some?
      ensures PinnedAt(callees, p, text[i..])
    {
      assert StartsWith(text[i..], USES);
    }
  }

  // ------------------------------------------------------------------- nothing to insert

  /**
    The first indented `permissions:` is the one in line `k`, and the lines below it, up to `e`, are
    nested in it and grant every permission needed.
   */
  ghost predicate Lists(needs: seq<string>, lines: seq<string>, k: nat, e: nat) {
    && k + 1 < e <= |lines| && IsHeader(lines[k])
    && (forall i :: 0 <= i < k ==> !IsHeader(lines[i]))
    && (forall i :: k < i < e ==> IsDeeper(lines[i], Indent(lines[k])))
    && GrantsAll(lines[k + 1..e], needs)
  }

  lemma ListsIsComplete(needs: seq<string>, lines: seq<string>, k: nat, e: nat)
    requires Lists(needs, lines, k, e)
    ensures IsComplete(needs, lines)
  {
    FirstBlockIs(lines, k);
    BlockEndEnds(lines, k);
    var end := BlockEnd(lines, k);
    assert e <= end;
    GrantsMore(lines[k + 1..e], lines[e..end], needs);
    assert lines[k + 1..end] == lines[k + 1..e] + lines[e..end];
  }

  lemma GrantsMore(a: seq<string>, b: seq<string>, needs: seq<string>)
    requires GrantsAll(a, needs)
    ensures GrantsAll(a + b, needs)
  {
    forall need <- needs
      ensures IsPresent(a + b, BeforeColon(need))
    {
      var line :| line in a && Grants(line, BeforeColon(need));
      assert line in a + b;
    }
  }

  /**
    The first block-style `on:` is in line `on`, its first entry in the next line, and the entry for
    `merge_group` in line `m` of its body.
   */
  ghost predicate Listens(lines: seq<string>, on: nat, m: nat) {
    ListensBy(CallerPatterns(), lines, on, m)
  }

  ghost predicate ListensBy(t: Patterns, lines: seq<string>, on: nat, m: nat) {
    && on < m < |lines| && t.on(lines[on])
    && (forall i :: 0 <= i < on ==> !t.on(lines[i]))
    && (forall i :: on < i <= m ==> !t.outside(lines[i]))
    && t.entry(lines[on + 1]) && t.merge(t.indent(lines[on + 1]))(lines[m])
  }

  lemma ListensIsDone(t: Patterns, lines: seq<string>, on: nat, m: nat)
    requires ListensBy(t, lines, on, m)
    ensures PlaceOf(t, lines).None?
  {
    var n := |lines|;
    FirstAtIs(lines, 0, n, t.on, on);
    var to := FirstAt(lines, on + 1, n, t.outside);
    FirstAtIsFirst(lines, on + 1, n, t.outside);
    assert m < to;
    FirstAtIs(lines, on + 1, to, t.entry, on + 1);
    FirstAtLe(lines, on + 1, to, t.merge(t.indent(lines[on + 1])), m);
  }

  /** A rendered caller of that form is what the edits would make of it. */
  lemma CallerIsSettled(
      callees: seq<string>, needs: seq<string>, c: Caller, p: Pin, k: nat, e: nat, on: nat, m: nat)
    requires AreCallees(callees) && IsPin(p) && IsCaller(callees, c, p)
    requires Lists(needs, LinesOf(CallerText(c, p)), k, e) && Listens(LinesOf(CallerText(c, p)), on, m)
    ensures IsSettled(callees, needs, p, CallerText(c, p))
  {
    CallerHasPin(callees, c, p, "");
    assert CallerText(c, p) + "" == CallerText(c, p);
    CallerIsPinned(callees, c, p);
    ListsIsComplete(needs, LinesOf(CallerText(c, p)), k, e);
    ListensIsDone(CallerPatterns(), LinesOf(CallerText(c, p)), on, m);
  }
}
