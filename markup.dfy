/** The part of `fetchActivities` that, for one activity, computes the number
    of free places and the participants section of the activity card: an
    "empty" block when nobody has signed up, otherwise a list with one item
    per participant, each carrying a remove button whose data attributes name
    the activity and the participant. */
module ParticipantsMarkup {
  import opened Wrappers
  import opened HtmlEscape

  /** Free places: `max_participants - participants.length`, not clamped. */
  function SpotsLeft(maxParticipants: int, participants: seq<string>): (r: int)
    ensures r + |participants| == maxParticipants
    ensures r < 0 <==> |participants| > maxParticipants
  {
    maxParticipants - |participants|
  }

  // The fixed parts of the item template, between the inserted values, each
  // cut at the HTML boundaries it spans: the end of the preceding element or
  // attribute value, then the start of the next. The first part of each
  // constant is what ends the value inserted before it (`<` after the shown
  // e-mail, `"` after an attribute value); the reader's lemmas use exactly
  // that first character.
  const ItemOpen := "<li>" + "<span class=\"participant-email\">"
  const AfterEmail := "</span>" + "<button class=\"remove-btn\" data-activity=\""
  const AfterActivity := "\"" + " data-email=\""
  const AfterDataEmail := "\"" + " aria-label=\"Remove "
  const ItemClose := "\">" + "\U{2716}" + "</button>" + "</li>"

  // The fixed parts of the section (layout whitespace of the template left
  // out). Both forms of the section begin with the same `<div class=...`.
  const SectionDiv := "<div class=\"participants-section"
  const ListOpen := SectionDiv + "\">" + "<h5>Participants</h5>" + "<ul class=\"participants-list\">"
  const ListClose := "</ul>" + "</div>"
  const EmptyBlock := SectionDiv + " participants-empty\">" + "No participants yet" + "</div>"

  /** The list item for participant `p` of activity `name`: the e-mail and
      the name go through `escapeHtml` at each of their four places. */
  function ItemMarkup(p: string, name: string): string {
    var ep, en := EscapeHtml(Some(p)), EscapeHtml(Some(name));
    ItemOpen + (ep + (AfterEmail + (en + (AfterActivity
      + (ep + (AfterDataEmail + (ep + ItemClose)))))))
  }

  /** `participants.map(p => ...)`: one item per participant, in list order. */
  function Items(participants: seq<string>, name: string): seq<string> {
    seq(|participants|, i requires 0 <= i < |participants| => ItemMarkup(participants[i], name))
  }

  /** `.join("")`. */
  function Join(xs: seq<string>): string {
    if xs == [] then [] else xs[0] + Join(xs[1..])
  }

  /** The participants section of an activity card. */
  function RenderParticipants(participants: seq<string>, name: string): string {
    if |participants| > 0 then ListOpen + Join(Items(participants, name)) + ListClose
    else EmptyBlock
  }

  // ---------------------------------------------------------------------
  // A reader for the markup, the partner of the rendering: it recovers,
  // from each item, the e-mail shown, the activity and e-mail carried by
  // the remove button's data attributes (what the click handler reads
  // back) and the e-mail in its label, decoding the character references.

  datatype ReadItem = ReadItem(shown: string, activity: string, email: string, ariaLabel: string)

  /** Strips the literal `lit` off the front of `s`. */
  function Expect(lit: string, s: string): (r: Option<string>)
    ensures r.Some? ==> s == lit + r.value
  {
    if lit <= s then Some(s[|lit|..]) else None
  }

  /** Splits `s` before the first `stop` (or at its end). */
  function SplitAt(s: string, stop: char): (r: (string, string))
    ensures r.0 + r.1 == s
    ensures stop !in r.0
    ensures r.1 == [] || r.1[0] == stop
  {
    if s == [] || s[0] == stop then ([], s)
    else
      var (a, b) := SplitAt(s[1..], stop);
      ([s[0]] + a, b)
  }

  function ReadOneItem(s: string): (r: Option<(ReadItem, string)>)
    ensures r.Some? ==> |r.value.1| < |s|
  {
    var s1 :- Expect(ItemOpen, s);
    var (shown, s2) := SplitAt(s1, '<');
    var s3 :- Expect(AfterEmail, s2);
    var (activity, s4) := SplitAt(s3, '"');
    var s5 :- Expect(AfterActivity, s4);
    var (email, s6) := SplitAt(s5, '"');
    var s7 :- Expect(AfterDataEmail, s6);
    var (labelText, s8) := SplitAt(s7, '"');
    var rest :- Expect(ItemClose, s8);
    Some((ReadItem(Unescape(shown), Unescape(activity), Unescape(email), Unescape(labelText)), rest))
  }

  function ReadItems(s: string): Option<seq<ReadItem>>
    decreases |s|
  {
    if s == [] then Some([])
    else
      var (item, rest) :- ReadOneItem(s);
      var items :- ReadItems(rest);
      Some([item] + items)
  }

  /** Reads a participants section back into its items. */
  function ReadParticipants(html: string): Option<seq<ReadItem>> {
    if html == EmptyBlock then Some([])
    else
      var body :- Expect(ListOpen, html);
      if |body| >= |ListClose| && body[|body| - |ListClose|..] == ListClose then
        ReadItems(body[..|body| - |ListClose|])
      else None
  }

  // ---------------------------------------------------------------------
  // Lemmas

  lemma ExpectPrefix(lit: string, t: string)
    ensures Expect(lit, lit + t) == Some(t)
  {
    assert (lit + t)[..|lit|] == lit;
    assert (lit + t)[|lit|..] == t;
  }

  /** The first `stop` after a text free of `stop` ends that text. */
  lemma {:induction false} SplitAtFirst(a: string, b: string, stop: char)
    requires stop !in a
    requires b != [] && b[0] == stop
    ensures SplitAt(a + b, stop) == (a, b)
  {
    if a == [] {
      assert a + b == b;
    } else {
      assert (a + b)[0] == a[0];
      assert (a + b)[1..] == a[1..] + b;
      SplitAtFirst(a[1..], b, stop);
      assert [a[0]] + a[1..] == a;
    }
  }

  /** Reads one inserted value: an escaped text followed by the next
      literal, which begins with a character escaped text never holds. */
  lemma ReadField(v: string, lit: string, t: string, stop: char)
    requires stop !in Escape(v)
    requires lit != [] && lit[0] == stop
    ensures SplitAt(Escape(v) + (lit + t), stop) == (Escape(v), lit + t)
    ensures Expect(lit, lit + t) == Some(t)
  {
    SplitAtFirst(Escape(v), lit + t, stop);
    ExpectPrefix(lit, t);
  }

  /** An item followed by more text, with the concatenations regrouped to the right. */
  lemma ItemShape(p: string, name: string, t: string)
    ensures ItemMarkup(p, name) + t
         == ItemOpen + (Escape(p) + (AfterEmail + (Escape(name) + (AfterActivity
              + (Escape(p) + (AfterDataEmail + (Escape(p) + (ItemClose + t))))))))
  {
    EscapeHtmlIsEscape(Some(p));
    EscapeHtmlIsEscape(Some(name));
    var ep, en := Escape(p), Escape(name);
    var r7 := ep + ItemClose;
    var r6 := AfterDataEmail + r7;
    var r5 := ep + r6;
    var r4 := AfterActivity + r5;
    var r3 := en + r4;
    var r2 := AfterEmail + r3;
    var r1 := ep + r2;
    ConcatAssoc(ItemOpen, r1, t);
    ConcatAssoc(ep, r2, t);
    ConcatAssoc(AfterEmail, r3, t);
    ConcatAssoc(en, r4, t);
    ConcatAssoc(AfterActivity, r5, t);
    ConcatAssoc(ep, r6, t);
    ConcatAssoc(AfterDataEmail, r7, t);
    ConcatAssoc(ep, ItemClose, t);
  }

  /** An item followed by anything reads back as the item's values. */
  lemma ReadItemMarkup(p: string, name: string, t: string)
    ensures ReadOneItem(ItemMarkup(p, name) + t)
         == Some((ReadItem(p, name, p, p), t))
  {
    var ep, en := Escape(p), Escape(name);
    EscapeNoMarkup(p);
    EscapeNoMarkup(name);
    var t8 := ItemClose + t;
    var t7 := ep + t8;
    var t6 := AfterDataEmail + t7;
    var t5 := ep + t6;
    var t4 := AfterActivity + t5;
    var t3 := en + t4;
    var t2 := AfterEmail + t3;
    var t1 := ep + t2;
    ItemShape(p, name, t);
    ExpectPrefix(ItemOpen, t1);
    ReadField(p, AfterEmail, t3, '<');
    ReadField(name, AfterActivity, t5, '"');
    ReadField(p, AfterDataEmail, t7, '"');
    ReadField(p, ItemClose, t, '"');
    UnescapeEscape(p);
    UnescapeEscape(name);
  }

  /** Item i carries participant i, shown and in the remove button's
      `data-email` and label, and the activity in its `data-activity`. */
  lemma ItemsCarry(participants: seq<string>, name: string, i: nat)
    requires i < |participants|
    ensures ReadOneItem(Items(participants, name)[i])
         == Some((ReadItem(participants[i], name, participants[i], participants[i]), []))
  {
    ReadItemMarkup(participants[i], name, []);
    assert ItemMarkup(participants[i], name) + [] == ItemMarkup(participants[i], name);
  }

  lemma ItemsTail(participants: seq<string>, name: string)
    requires participants != []
    ensures Items(participants[1..], name) == Items(participants, name)[1..]
  {
  }

  /** The items read from a joined list are the participants, in order,
      each with the activity's name. */
  lemma {:induction false} ReadJoinedItems(participants: seq<string>, name: string)
    ensures var r := ReadItems(Join(Items(participants, name)));
      && r.Some? && |r.value| == |participants|
      && forall i :: 0 <= i < |participants| ==>
           r.value[i] == ReadItem(participants[i], name, participants[i], participants[i])
  {
    var items := Items(participants, name);
    if participants == [] {
      assert Join(items) == [];
    } else {
      var p := participants[0];
      var first, later := ItemMarkup(p, name), Join(items[1..]);
      ItemsTail(participants, name);
      ReadJoinedItems(participants[1..], name);
      ReadItemMarkup(p, name, later);
      assert Join(items) == first + later;
      ReadItemsCons(first + later, ReadItem(p, name, p, p), later);
      ConsReadBack(participants, name, ReadItems(later).value);
    }
  }

  lemma ReadItemsCons(s: string, item: ReadItem, rest: string)
    requires ReadOneItem(s) == Some((item, rest))
    requires ReadItems(rest).Some?
    ensures ReadItems(s) == Some([item] + ReadItems(rest).value)
  {
  }

  lemma ConsReadBack(participants: seq<string>, name: string, rest: seq<ReadItem>)
    requires participants != [] && |rest| == |participants| - 1
    requires forall i :: 0 <= i < |rest| ==>
      rest[i] == ReadItem(participants[1..][i], name, participants[1..][i], participants[1..][i])
    ensures var r := [ReadItem(participants[0], name, participants[0], participants[0])] + rest;
      forall i :: 0 <= i < |participants| ==>
        r[i] == ReadItem(participants[i], name, participants[i], participants[i])
  {
    var r := [ReadItem(participants[0], name, participants[0], participants[0])] + rest;
    forall i | 0 <= i < |participants|
      ensures r[i] == ReadItem(participants[i], name, participants[i], participants[i])
    {
      if i > 0 {
        assert r[i] == rest[i - 1];
        assert participants[1..][i - 1] == participants[i];
      }
    }
  }

  /** The rendered section reads back as the participants, in list order,
      each with the activity's name: the remove button of item i carries
      exactly participant i and the activity, whatever characters they hold
      (as decoded by this reader; a browser's parser also normalises line
      breaks and U+0000). */
  lemma RenderReadsBack(participants: seq<string>, name: string)
    ensures var r := ReadParticipants(RenderParticipants(participants, name));
      && r.Some? && |r.value| == |participants|
      && forall i :: 0 <= i < |participants| ==>
           r.value[i] == ReadItem(participants[i], name, participants[i], participants[i])
  {
    if participants != [] {
      var joined := Join(Items(participants, name));
      RenderListForm(participants, name);
      ReadSection(joined);
      ReadJoinedItems(participants, name);
    }
  }

  /** A non-empty list renders as the list opening, the items, the list closing. */
  lemma RenderListForm(participants: seq<string>, name: string)
    requires participants != []
    ensures RenderParticipants(participants, name)
         == ListOpen + (Join(Items(participants, name)) + ListClose)
  {
    ConcatAssoc(ListOpen, Join(Items(participants, name)), ListClose);
  }

  /** The reader takes the list opening and closing off a section and reads
      the items between them. */
  lemma ReadSection(joined: string)
    ensures ReadParticipants(ListOpen + (joined + ListClose)) == ReadItems(joined)
  {
    var body := joined + ListClose;
    ListNotEmptyBlock(body);
    ExpectPrefix(ListOpen, body);
    assert body[|body| - |ListClose|..] == ListClose;
    assert body[..|body| - |ListClose|] == joined;
  }

  /** A section that opens the list is never the empty block. */
  lemma ListNotEmptyBlock(body: string)
    ensures ListOpen + body != EmptyBlock
  {
    var x := "\">" + "<h5>Participants</h5>" + "<ul class=\"participants-list\">" + body;
    assert ListOpen + body == SectionDiv + x;
  }

  /** The empty block is rendered exactly when there are no participants. */
  lemma RenderEmptyBlock(participants: seq<string>, name: string)
    ensures RenderParticipants(participants, name) == EmptyBlock <==> participants == []
  {
    if participants != [] {
      ListNotEmptyBlock(Join(Items(participants, name)) + ListClose);
      RenderListForm(participants, name);
    }
  }

  /** Different participant lists never render the same section, and a
      non-empty section also determines the activity. */
  lemma RenderInjective(ps: seq<string>, qs: seq<string>, name: string, other: string)
    requires RenderParticipants(ps, name) == RenderParticipants(qs, other)
    ensures ps == qs
    ensures ps != [] ==> name == other
  {
    RenderReadsBack(ps, name);
    RenderReadsBack(qs, other);
    var r := ReadParticipants(RenderParticipants(ps, name)).value;
    assert |ps| == |qs|;
    forall i | 0 <= i < |ps| ensures ps[i] == qs[i] {
      assert r[i].email == ps[i] && r[i].email == qs[i];
    }
    if ps != [] {
      assert r[0].activity == name && r[0].activity == other;
    }
  }
}
