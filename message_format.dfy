/**
 * How one entry of the message buffer becomes a display line
 * (`ChannelMessages.display_value`): the leftmost user mention `<@ID>` in the
 * text is looked up, every copy of that exact token is replaced by `@name`,
 * and the result is formatted as `"{user}: {text}"`. Anything that is not a
 * message is shown as its plain string form.
 */
module MessageFormat {
  import opened Options
  import opened Strings

  type UserId = string

  /** The character class `[A-Z0-9]` of the mention pattern. */
  predicate IsIdChar(c: char)
  {
    'A' <= c <= 'Z' || '0' <= c <= '9'
  }

  /** A whole match of the pattern `<@[A-Z0-9]+>`. */
  predicate IsMentionToken(t: string)
  {
    |t| >= 4 && t[0] == '<' && t[1] == '@' && t[|t| - 1] == '>' &&
    forall k :: 2 <= k < |t| - 1 ==> IsIdChar(t[k])
  }

  /** Length of the longest run of `[A-Z0-9]` characters starting at `j`. */
  function IdRun(s: string, j: nat): (k: nat)
    requires j <= |s|
    ensures j + k <= |s|
    ensures forall m :: j <= m < j + k ==> IsIdChar(s[m])
    ensures j + k < |s| ==> !IsIdChar(s[j + k])
    decreases |s| - j
  {
    if j < |s| && IsIdChar(s[j]) then 1 + IdRun(s, j + 1) else 0
  }

  lemma {:induction false} IdRunExact(s: string, j: nat, e: nat)
    requires j <= e < |s|
    requires forall m :: j <= m < e ==> IsIdChar(s[m])
    requires !IsIdChar(s[e])
    ensures IdRun(s, j) == e - j
    decreases e - j
  {
    if j < e {
      IdRunExact(s, j + 1, e);
    }
  }

  /** The length of the match of `<@[A-Z0-9]+>` that starts at index `i`, if any. */
  function MatchAt(s: string, i: nat): (r: Option<nat>)
    ensures r.Some? ==> i + r.value <= |s| && IsMentionToken(s[i..i + r.value])
  {
    if i + 2 <= |s| && s[i] == '<' && s[i + 1] == '@' then
      var k := IdRun(s, i + 2);
      if k >= 1 && i + 2 + k < |s| && s[i + 2 + k] == '>' then Some(k + 3) else None
    else None
  }

  /** Every mention token in `s` is found by `MatchAt` at its start, with its length. */
  lemma MatchAtComplete(s: string, i: nat, j: nat)
    requires i <= j <= |s| && IsMentionToken(s[i..j])
    ensures MatchAt(s, i) == Some(j - i)
  {
    var t := s[i..j];
    assert s[i] == t[0] && s[i + 1] == t[1] && s[j - 1] == t[|t| - 1];
    forall m | i + 2 <= m < j - 1 ensures IsIdChar(s[m]) {
      assert s[m] == t[m - i];
    }
    IdRunExact(s, i + 2, j - 1);
  }

  /** A mention token occurring at `i` is exactly what `MatchAt` reports there. */
  lemma OccurrenceIsMatch(s: string, t: string, i: nat)
    requires IsMentionToken(t)
    ensures OccursAt(s, t, i) ==> MatchAt(s, i) == Some(|t|)
  {
    if OccursAt(s, t, i) {
      MatchAtComplete(s, i, i + |t|);
    }
  }

  /** A mention token contains `<` only as its first character. */
  lemma MentionOpensOnce(t: string, k: nat)
    requires IsMentionToken(t) && 0 < k < |t|
    ensures t[k] != '<'
  {
    if 2 <= k < |t| - 1 {
      assert IsIdChar(t[k]);
    }
  }

  /** No mention token can span a position that holds `<`. */
  lemma NoStraddleAtOpen(s: string, t: string, cut: nat)
    requires IsMentionToken(t) && cut < |s| && s[cut] == '<'
    ensures NoStraddle(s, t, cut)
  {
    forall q: nat | q < cut < q + |t| ensures !OccursAt(s, t, q) {
      MentionOpensOnce(t, cut - q);
      if q + |t| <= |s| {
        assert s[q..q + |t|][cut - q] == s[cut];
      }
    }
  }

  /** The position and length of a match of the mention pattern. */
  datatype Match = Match(start: nat, len: nat)

  /** `re.search` for the mention pattern in `s[from..]`: the leftmost match. */
  function FirstMention(s: string, from: nat): (r: Option<Match>)
    ensures r.Some? ==> from <= r.value.start && MatchAt(s, r.value.start) == Some(r.value.len)
    ensures r.Some? ==> forall j :: from <= j < r.value.start ==> MatchAt(s, j).None?
    ensures r.None? ==> forall j: nat :: from <= j ==> MatchAt(s, j).None?
    decreases |s| - from
  {
    if from >= |s| then None
    else match MatchAt(s, from)
      case Some(k) => Some(Match(from, k))
      case None => FirstMention(s, from + 1)
  }

  /** A chat message as the formatter sees it; its `text` may be `None`. */
  datatype Message = Message(user: string, text: Option<string>)

  /** An entry of the buffer: a message, or any other value with its string form. */
  datatype Value = MessageValue(msg: Message) | OtherValue(repr: string)

  /** `str(text)`: a text of `None` prints as `None`, a string as itself. */
  function TextOf(m: Message): string
  {
    match m.text
    case Some(t) => t
    case None => "None"
  }

  /** The token with every `<`, `@` and `>` deleted. */
  function MentionedId(token: string): UserId
  {
    Without(Without(Without(token, '<'), '@'), '>')
  }

  /** Deleting `<`, `@` and `>` from `<@` + `mid` + `>` leaves `mid` when `mid` has none of them. */
  lemma StripDecorations(mid: string)
    requires '<' !in mid && '@' !in mid && '>' !in mid
    ensures MentionedId([ '<', '@' ] + mid + [ '>' ]) == mid
  {
    var closed := mid + [ '>' ];
    var afterAt := [ '@' ] + closed;
    assert [ '<', '@' ] + mid + [ '>' ] == [ '<' ] + afterAt;
    assert '<' !in closed && '@' !in closed;
    assert '<' !in afterAt;
    assert Without([ '<' ] + afterAt, '<') == afterAt by {
      WithoutDropHead('<', afterAt);
    }
    assert Without(afterAt, '@') == closed by {
      WithoutDropHead('@', closed);
    }
    assert Without(closed, '>') == mid by {
      WithoutConcat(mid, [ '>' ], '>');
      WithoutDropHead('>', []);
    }
  }

  /** Stripping the decorations of a token leaves exactly the characters between `<@` and `>`. */
  lemma StripMention(t: string)
    requires IsMentionToken(t)
    ensures MentionedId(t) == t[2..|t| - 1]
  {
    var mid := t[2..|t| - 1];
    forall k | 0 <= k < |mid| ensures IsIdChar(mid[k]) {
      assert mid[k] == t[k + 2];
    }
    assert t == [ '<', '@' ] + mid + [ '>' ];
    StripDecorations(mid);
  }

  /** The text of the leftmost mention token, if there is one. */
  function LeftmostToken(text: string): (r: Option<string>)
    ensures r.Some? ==> IsMentionToken(r.value)
  {
    match FirstMention(text, 0)
    case None => None
    case Some(mt) => Some(text[mt.start..mt.start + mt.len])
  }

  /** The lookup of the leftmost mention must succeed: the program has no fallback for an unknown user. */
  predicate MentionsKnown(v: Value, users: map<UserId, string>)
  {
    match v
    case OtherValue(_) => true
    case MessageValue(m) =>
      match LeftmostToken(TextOf(m))
      case None => true
      case Some(token) => MentionedId(token) in users
  }

  /** `ChannelMessages.display_value`. */
  function DisplayValue(v: Value, users: map<UserId, string>): (r: string)
    requires MentionsKnown(v, users)
    ensures v.OtherValue? ==> r == v.repr
    ensures v.MessageValue? && (forall j: nat :: MatchAt(TextOf(v.msg), j).None?) ==>
              r == v.msg.user + ": " + TextOf(v.msg)
  {
    match v
    case OtherValue(repr) => repr
    case MessageValue(m) =>
      var text := TextOf(m);
      match LeftmostToken(text)
      case None => m.user + ": " + text
      case Some(token) => m.user + ": " + ReplaceAll(text, token, "@" + users[MentionedId(token)])
  }

  /** Replacing a mention token in `a + t + b` replaces that copy and works on `a` and `b` independently. */
  lemma ReplaceAroundToken(a: string, t: string, b: string, replacement: string)
    requires IsMentionToken(t)
    ensures ReplaceAll(a + t + b, t, replacement)
         == ReplaceAll(a, t, replacement) + replacement + ReplaceAll(b, t, replacement)
  {
    assert a + t + b == a + (t + b);
    NoStraddleAtOpen(a + (t + b), t, |a|);
    ReplaceSplit(a, t + b, t, replacement);
    assert (t + b)[..|t|] == t && (t + b)[|t|..] == b;
  }

  /** A mention token does not occur inside a different mention token. */
  lemma OtherTokenAbsent(u: string, t: string)
    requires IsMentionToken(t) && IsMentionToken(u) && u != t
    ensures Absent(u, t)
  {
    forall i: nat ensures !OccursAt(u, t, i) {
      if i == 0 {
        OccurrenceIsMatch(u, t, 0);
        assert OccursAt(u, u, 0);
        OccurrenceIsMatch(u, u, 0);
      } else if i < |u| && i + |t| <= |u| {
        MentionOpensOnce(u, i);
        assert u[i..i + |t|][0] == u[i];
      }
    }
  }

  /** No occurrence of a mention token `t` runs from inside a different token `u` into what follows it. */
  lemma NoStraddleAfterToken(u: string, b: string, t: string)
    requires IsMentionToken(t) && IsMentionToken(u) && u != t
    ensures NoStraddle(u + b, t, |u|)
  {
    var s := u + b;
    assert s[..|u|] == u;
    assert OccursAt(s, u, 0);
    OccurrenceIsMatch(s, u, 0);
    OccurrenceIsMatch(s, t, 0);
    forall q: nat | q < |u| < q + |t| ensures !OccursAt(s, t, q) {
      if 0 < q && q + |t| <= |s| {
        MentionOpensOnce(u, q);
        assert s[q..q + |t|][0] == u[q];
      }
    }
  }

  /** A different mention token is left as it is, whatever surrounds it. */
  lemma ReplaceAroundOtherToken(a: string, u: string, b: string, t: string, replacement: string)
    requires IsMentionToken(t) && IsMentionToken(u) && u != t
    ensures ReplaceAll(a + u + b, t, replacement)
         == ReplaceAll(a, t, replacement) + u + ReplaceAll(b, t, replacement)
  {
    assert a + u + b == a + (u + b);
    NoStraddleAtOpen(a + (u + b), t, |a|);
    ReplaceSplit(a, u + b, t, replacement);
    NoStraddleAfterToken(u, b, t);
    ReplaceSplit(u, b, t, replacement);
    OtherTokenAbsent(u, t);
    ReplaceAbsent(u, t, replacement);
  }

  /** When no match starts before `token`, `re.search` reports `token`. */
  lemma LeftmostFound(text: string, a: string, token: string, b: string)
    requires text == a + token + b
    requires IsMentionToken(token)
    requires forall j :: 0 <= j < |a| ==> MatchAt(text, j).None?
    ensures FirstMention(text, 0) == Some(Match(|a|, |token|))
  {
    assert MatchAt(text, |a|) == Some(|token|) by {
      assert text[|a|..|a| + |token|] == token;
      MatchAtComplete(text, |a|, |a| + |token|);
    }
    var r := FirstMention(text, 0);
    assert r.Some?;
    FirstMatchUnique(text, r.value.start, |a|);
  }

  /** Two match positions, each with no match before it, are the same position. */
  lemma FirstMatchUnique(text: string, p: nat, q: nat)
    requires MatchAt(text, p).Some? && MatchAt(text, q).Some?
    requires forall j :: 0 <= j < p ==> MatchAt(text, j).None?
    requires forall j :: 0 <= j < q ==> MatchAt(text, j).None?
    ensures p == q
  {
  }

  /** When no match starts in `a`, the token does not occur in `a`. */
  lemma NoMatchNoToken(text: string, a: string, token: string)
    requires a <= text
    requires IsMentionToken(token)
    requires forall j :: 0 <= j < |a| ==> MatchAt(text, j).None?
    ensures Absent(a, token)
  {
    forall i: nat ensures !OccursAt(a, token, i) {
      OccurrenceIsMatch(text, token, i);
      if i + |token| <= |a| {
        assert a[i..i + |token|] == text[i..i + |token|];
      }
    }
  }

  /** With `token` the leftmost mention, the line is the author and the text with that token replaced. */
  lemma DisplayOfLeftmost(m: Message, users: map<UserId, string>, a: string, token: string, b: string)
    requires TextOf(m) == a + token + b
    requires IsMentionToken(token)
    requires forall j :: 0 <= j < |a| ==> MatchAt(TextOf(m), j).None?
    requires token[2..|token| - 1] in users
    ensures MentionsKnown(MessageValue(m), users)
    ensures DisplayValue(MessageValue(m), users)
         == m.user + ": " + ReplaceAll(TextOf(m), token, "@" + users[token[2..|token| - 1]])
  {
    var text := TextOf(m);
    assert LeftmostToken(text) == Some(token) by {
      LeftmostFound(text, a, token, b);
      assert text[|a|..|a| + |token|] == token;
    }
    StripMention(token);
  }

  /**
   * The main statement about `display_value`: with `token` the leftmost
   * mention in the text, the line is the author, `": "`, the text before the
   * token unchanged, `@` and the looked-up name, and the rest of the text with
   * every further copy of the same token replaced in the same way.
   */
  lemma DisplayResolvesLeftmost(m: Message, users: map<UserId, string>, a: string, token: string, b: string)
    requires TextOf(m) == a + token + b
    requires IsMentionToken(token)
    requires forall j :: 0 <= j < |a| ==> MatchAt(TextOf(m), j).None?
    requires token[2..|token| - 1] in users
    ensures MentionsKnown(MessageValue(m), users)
    ensures var replacement := "@" + users[token[2..|token| - 1]];
            DisplayValue(MessageValue(m), users)
            == m.user + ": " + (a + replacement + ReplaceAll(b, token, replacement))
  {
    var text := TextOf(m);
    var id := token[2..|token| - 1];
    var replacement := "@" + users[id];
    DisplayOfLeftmost(m, users, a, token, b);
    assert ReplaceAll(a, token, replacement) == a by {
      NoMatchNoToken(text, a, token);
      ReplaceAbsent(a, token, replacement);
    }
    ReplaceAroundToken(a, token, b, replacement);
  }
}
