/**
 * The bordered frame around the pager (`BoxedChannelMessages`): its title
 * names the channel, its topic (or else its purpose) and whether it is
 * private; its footer says who is typing.
 */
module MessageBox {
  import opened Options
  import opened Strings

  /** A key of a channel's typing-users dictionary. */
  type TypingKey = string

  /**
   * A channel as `set_channel` reads it. `topic` and `purpose` are the
   * channel's metadata dictionaries; an empty map stands for a missing or
   * empty one, both of which are false in a condition. The channel's
   * typing-users dictionary changes in place while the channel is bound, so
   * it is not part of this record: each typing event is given its keys as
   * they are at that moment.
   */
  datatype Channel = Channel(
    name: string,
    topic: map<string, string>,
    purpose: map<string, string>,
    isPrivate: bool)

  /** `d.get(key)`. */
  function Get(d: map<string, string>, key: string): Option<string>
  {
    if key in d then Some(d[key]) else None
  }

  /** The `value` of the topic when there is a topic, otherwise that of the purpose. */
  function ChosenTopic(ch: Channel): Option<string>
  {
    if |ch.topic| > 0 then Get(ch.topic, "value")
    else if |ch.purpose| > 0 then Get(ch.purpose, "value")
    else None
  }

  /** Whether the title shows a topic, and which: only a non-empty one is shown. */
  predicate ShowsTopic(ch: Channel)
  {
    ChosenTopic(ch).Some? && ChosenTopic(ch).value != ""
  }

  /** The box title `set_channel` builds. */
  function Title(ch: Channel): (t: string)
    ensures "Messages | " + ch.name <= t
    ensures !ShowsTopic(ch) && !ch.isPrivate ==> t == "Messages | " + ch.name
  {
    ("Messages | " + ch.name)
    + (if ShowsTopic(ch) then " (" + ChosenTopic(ch).value + ")" else "")
    + (if ch.isPrivate then " [PRIVATE]" else "")
  }

  /** The purpose is read only when the channel has no topic. */
  lemma TopicShadowsPurpose(ch: Channel, purpose: map<string, string>)
    requires |ch.topic| > 0
    ensures Title(ch.(purpose := purpose)) == Title(ch)
  {
  }

  /** Without a topic, a non-empty purpose `value` is shown in the topic's place. */
  lemma PurposeFallback(ch: Channel)
    requires |ch.topic| == 0 && "value" in ch.purpose && ch.purpose["value"] != ""
    requires !ch.isPrivate
    ensures Title(ch) == "Messages | " + ch.name + " (" + ch.purpose["value"] + ")"
  {
  }

  /** A topic without a `value` (or with an empty one) shows nothing, even when there is a purpose. */
  lemma EmptyTopicHidesPurpose(ch: Channel)
    requires |ch.topic| > 0 && ("value" !in ch.topic || ch.topic["value"] == "")
    ensures !ShowsTopic(ch)
  {
  }

  /** The private flag only appends ` [PRIVATE]`. */
  lemma PrivateSuffix(ch: Channel)
    ensures Title(ch.(isPrivate := true)) == Title(ch.(isPrivate := false)) + " [PRIVATE]"
  {
  }

  /** The title without the private flag: the title prefix, then the topic in parentheses when shown. */
  lemma TitleTopicPart(ch: Channel)
    requires !ch.isPrivate
    ensures ShowsTopic(ch) ==> Title(ch) == "Messages | " + ch.name + " (" + ChosenTopic(ch).value + ")"
    ensures !ShowsTopic(ch) ==> Title(ch) == "Messages | " + ch.name
  {
  }

  /**
   * The list comprehension `[u.get_name() for u in typing_users]`: the names
   * in order, or `None` as soon as one lookup fails (the exception).
   */
  function NamesOf(ids: seq<TypingKey>, users: map<TypingKey, string>): (r: Option<seq<string>>)
    ensures r.Some? <==> forall k :: 0 <= k < |ids| ==> ids[k] in users
    ensures r.Some? ==> |r.value| == |ids| && forall k :: 0 <= k < |ids| ==> r.value[k] == users[ids[k]]
  {
    if ids == [] then Some([])
    else if ids[0] !in users then None
    else match NamesOf(ids[1..], users)
      case None => None
      case Some(rest) => Some([users[ids[0]]] + rest)
  }

  /**
   * The names `typing_user_event` works from, given the keys of the current
   * channel's typing-users dictionary at this tick: an empty list when there
   * is no current channel or when any name lookup fails.
   */
  function TypingNames(current: Option<Channel>, typing: seq<TypingKey>, users: map<TypingKey, string>)
    : (names: seq<string>)
    ensures current.None? ==> names == []
    ensures current.Some? && (exists k :: 0 <= k < |typing| && typing[k] !in users) ==> names == []
    ensures current.Some? && (forall k :: 0 <= k < |typing| ==> typing[k] in users) ==>
              |names| == |typing| && forall k :: 0 <= k < |names| ==> names[k] == users[typing[k]]
  {
    match current
    case None => []
    case Some(_) =>
      match NamesOf(typing, users)
      case None => []
      case Some(names) => names
  }

  /** The footer for a list of typing users. */
  function Footer(names: seq<string>): (f: Option<string>)
    ensures f.None? <==> |names| == 0
    ensures |names| == 1 ==> f == Some(names[0] + " is typing...")
    ensures |names| >= 4 ==> f == Some("Multiple people are typing...")
  {
    if |names| < 1 then None
    else if |names| == 1 then Some(names[0] + " is typing...")
    else if |names| < 4 then
      Some(Join(names[..|names| - 1], ", ") + " and " + names[|names| - 1] + " are typing...")
    else Some("Multiple people are typing...")
  }

  /** Two typing users are named with "and" between them. */
  lemma FooterTwo(a: string, b: string)
    ensures Footer([a, b]) == Some(a + " and " + b + " are typing...")
  {
    assert [a, b][..1] == [a];
  }

  /** Three typing users: the first two separated by a comma, the last after "and". */
  lemma FooterThree(a: string, b: string, c: string)
    ensures Footer([a, b, c]) == Some(a + ", " + b + " and " + c + " are typing...")
  {
    assert [a, b, c][..2] == [a] + [b];
    JoinSnoc([a], b, ", ");
  }

  /** One user whose name cannot be looked up clears the whole footer. */
  lemma LookupFailureClearsFooter(ch: Channel, typing: seq<TypingKey>, users: map<TypingKey, string>, k: nat)
    requires k < |typing| && typing[k] !in users
    ensures Footer(TypingNames(Some(ch), typing, users)) == None
  {
  }

  /** The box around the pager: its title, the bound channel and the footer. */
  class BoxedChannelMessages {
    /** The box title. */
    var name: string
    var currentChannel: Option<Channel>
    var footer: Option<string>

    constructor ()
      ensures name == "Messages" && currentChannel == None && footer == None
    {
      name := "Messages";
      currentChannel := None;
      footer := None;
    }

    /**
     * `set_channel`: bind the channel and show its title. Given `None`, the
     * program fails reading the name right after skipping the bind, so `ok`
     * is false and nothing has changed; the guard on the bind is thus never
     * what keeps the box usable.
     */
    method SetChannel(channel: Option<Channel>) returns (ok: bool)
      modifies this
      ensures ok <==> channel.Some?
      ensures ok ==> currentChannel == channel && name == Title(channel.value)
      ensures !ok ==> currentChannel == old(currentChannel) && name == old(name)
      ensures footer == old(footer)
    {
      if channel.Some? {
        currentChannel := channel;
      }
      if channel.None? {
        // `ch.name` on `None` raises.
        return false;
      }
      var ch := channel.value;

      var newName := "Messages | " + ch.name;

      var topic: Option<string>;
      if |ch.topic| > 0 {
        topic := Get(ch.topic, "value");
      } else if |ch.purpose| > 0 {
        topic := Get(ch.purpose, "value");
      } else {
        topic := None;
      }
      if topic.Some? && topic.value != "" {
        newName := newName + " (" + topic.value + ")";
      }

      if ch.isPrivate {
        newName := newName + " [PRIVATE]";
      }

      name := newName;
      ok := true;
    }

    /**
     * `typing_user_event`: recompute the footer from who is typing in the
     * current channel. `typing` are the keys of that channel's live
     * typing-users dictionary when the event fires.
     */
    method TypingUserEvent(typing: seq<TypingKey>, users: map<TypingKey, string>)
      modifies this
      ensures footer == Footer(TypingNames(old(currentChannel), typing, users))
      ensures name == old(name) && currentChannel == old(currentChannel)
    {
      var typingUsers: seq<string>;
      match currentChannel {
        case None =>
          typingUsers := [];
        case Some(_) =>
          match NamesOf(typing, users) {
            case None => typingUsers := [];
            case Some(names) => typingUsers := names;
          }
      }

      if |typingUsers| < 1 {
        footer := None;
      } else if |typingUsers| == 1 {
        footer := Some(typingUsers[0] + " is typing...");
      } else if |typingUsers| < 4 {
        footer := Some(Join(typingUsers[..|typingUsers| - 1], ", ") + " and "
                       + typingUsers[|typingUsers| - 1] + " are typing...");
      } else {
        footer := Some("Multiple people are typing...");
      }
    }
  }
}
