/**
  The `message` handler: for every message that is not a command, decide
  whether to put a ⏰ reaction on it, to reply asking its author to set a
  timezone, or to do nothing. Whether the author has a timezone on record is
  the answer of the user lookup, given here as a flag.
 */
module Trigger {
  import opened Text
  import opened TimeScanner

  /** What the handler does; `AskForTimezone` carries the text of its reply. */
  datatype Action = Ignore | React | AskForTimezone(reply: string)

  /** The reply to an author without a timezone who mentions a time. */
  function Prompt(authorName: string): string
  {
    "Hi " + authorName + PromptAdvice
  }

  const PromptAdvice: string := " – you haven't set your timezone yet. DM this bot with a (canonical) timezone from this list https://en.wikipedia.org/wiki/List_of_tz_database_time_zones, e.g. `~set_timezone Europe/London`"


  /** The reply starts by greeting the author by name. */
  lemma PromptGreetsAuthor(authorName: string)
    ensures Prompt(authorName)[..3 + |authorName|] == "Hi " + authorName
  {
    var greeting := "Hi " + authorName;
    assert Prompt(authorName) == greeting + PromptAdvice;
    assert (greeting + PromptAdvice)[..|greeting|] == greeting;
  }

  predicate IsCommand(content: string) {
    |content| > 0 && content[0] == '~'
  }

  predicate HasDigit(content: string) {
    exists j :: 0 <= j < |content| && IsDigit(content[j])
  }

  /** The decision of the `message` handler, driven by the number of time matches. */
  function OnMessage(content: string, authorName: string, authorRegistered: bool, authorIsBot: bool): Action
  {
    if IsCommand(content) then Ignore
    else
      var count := |Scan(content)|;
      if authorRegistered then
        if count > 0 then React else Ignore
      else if count > 0 && !authorIsBot then AskForTimezone(Prompt(authorName))
      else Ignore
  }

  /**
    A message is reacted to exactly when it is not a command, its author has a
    timezone and it contains a digit; the author is asked for a timezone exactly
    when it is not a command, the author has none, is not a bot, and the text
    contains a digit, and the reply greets the author by name. Everything else
    is ignored.
   */
  lemma OnMessageDecision(content: string, authorName: string, authorRegistered: bool, authorIsBot: bool)
    ensures OnMessage(content, authorName, authorRegistered, authorIsBot) == React
      <==> !IsCommand(content) && authorRegistered && HasDigit(content)
    ensures OnMessage(content, authorName, authorRegistered, authorIsBot).AskForTimezone?
      <==> !IsCommand(content) && !authorRegistered && !authorIsBot && HasDigit(content)
    ensures OnMessage(content, authorName, authorRegistered, authorIsBot).AskForTimezone? ==>
      OnMessage(content, authorName, authorRegistered, authorIsBot).reply == Prompt(authorName)
  {
    MatchesIffDigit(content);
    var action := OnMessage(content, authorName, authorRegistered, authorIsBot);
    if IsCommand(content) {
      assert action == Ignore;
    } else if authorRegistered {
      assert action == (if HasDigit(content) then React else Ignore);
    } else {
      if HasDigit(content) && !authorIsBot {
        assert action == AskForTimezone(Prompt(authorName));
      } else {
        assert action == Ignore;
      }
    }
  }

  lemma MatchesIffDigit(content: string)
    ensures |Scan(content)| > 0 <==> HasDigit(content)
  {
    ScanEmptyIffNoDigit(content);
  }

  /** Text without a digit, and any command, is never reacted to nor answered. */
  lemma QuietWithoutDigits(content: string, authorName: string, authorRegistered: bool, authorIsBot: bool)
    requires IsCommand(content) || !HasDigit(content)
    ensures OnMessage(content, authorName, authorRegistered, authorIsBot) == Ignore
  {
    OnMessageDecision(content, authorName, authorRegistered, authorIsBot);
  }
}
