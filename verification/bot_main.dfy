/**
 * The bot's entry point logic: the global command check, the command
 * prefixes, the hyphen-to-underscore command lookup and the connect message.
 */
module BotMain {
  import opened Wrappers
  import opened DecimalText

  /** The one guild in which everyone may use commands. */
  const HomeGuildId: int := 786609181855318047

  /** What the global check reads from a command invocation. */
  datatype Invocation = Invocation(
    ready: bool,           // the bot has finished connecting
    initLoad: bool,        // the start-up extension loading is still running
    guildId: Option<int>,  // the guild the command was sent in, if any
    authorId: int,
    ownerId: int)

  /** The check every command passes through before it runs. */
  function GlobalChecks(ctx: Invocation): (ok: bool)
    ensures !ctx.ready ==> !ok
    ensures ctx.initLoad ==> !ok
    ensures ctx.guildId.None? ==> !ok
    ensures ctx.ready && !ctx.initLoad && ctx.guildId.Some? ==>
              (ok <==> ctx.guildId.value == HomeGuildId || ctx.authorId == ctx.ownerId)
  {
    if !ctx.ready then false
    else if ctx.initLoad then false
    else if ctx.guildId.None? then false
    else ctx.guildId.value == HomeGuildId || ctx.authorId == ctx.ownerId
  }

  /** The mention of a user as Discord renders it: `<@id>`. */
  function Mention(id: nat): string
  {
    "<@" + NatToDigits(id) + ">"
  }

  /** The custom prefix. */
  const CustomPrefix: string := "p!"

  /**
   * The prefixes a message may start with: the bot's mention and its
   * nickname mention, each followed by a space, and `p!`.
   */
  function PdPrefixes(botId: nat): (ps: set<string>)
    ensures |ps| == 3
    ensures CustomPrefix in ps
    ensures forall p :: p in ps && p != CustomPrefix ==> |p| > 4 && p[..2] == "<@" && p[|p| - 1] == ' '
    ensures Mention(botId) + " " in ps && "<@!" + NatToDigits(botId) + "> " in ps
  {
    var digits := NatToDigits(botId);
    var mentionPrefixes := {Mention(botId) + " ", "<@!" + digits + "> "};
    var customPrefixes := {CustomPrefix};
    assert (Mention(botId) + " ")[2] == digits[0];
    assert ("<@!" + digits + "> ")[2] == '!';
    assert (Mention(botId) + " ")[0] == '<';
    mentionPrefixes + customPrefixes
  }

  /** Every `-` in `s` replaced by `_`, as `str.replace("-", "_")`. */
  function HyphensToUnderscores(s: string): (r: string)
    ensures |r| == |s|
    ensures forall i :: 0 <= i < |s| ==> r[i] == (if s[i] == '-' then '_' else s[i])
    decreases |s|
  {
    if |s| == 0 then ""
    else [if s[0] == '-' then '_' else s[0]] + HyphensToUnderscores(s[1..])
  }

  /** The rewritten name has no hyphen, and rewriting it again changes nothing. */
  lemma HyphensToUnderscoresIdempotent(s: string)
    ensures '-' !in HyphensToUnderscores(s)
    ensures HyphensToUnderscores(HyphensToUnderscores(s)) == HyphensToUnderscores(s)
  {
  }

  /** What command resolution produced: the command found, if any, and the word it was invoked with. */
  datatype Context<C> = Context(command: Option<C>, invokedWith: Option<string>)

  /**
   * `get_context`: keeps a resolved command; otherwise, when the invoking word
   * is non-empty, looks the command up again with hyphens turned into
   * underscores.
   */
  function GetContext<C>(ctx: Context<C>, allCommands: map<string, C>): (r: Context<C>)
    ensures r.invokedWith == ctx.invokedWith
    ensures ctx.command.Some? ==> r.command == ctx.command
    ensures ctx.command.None? && (ctx.invokedWith.None? || ctx.invokedWith.value == "") ==> r.command.None?
    ensures ctx.command.None? && ctx.invokedWith.Some? && ctx.invokedWith.value != "" ==>
              (r.command.Some? <==> HyphensToUnderscores(ctx.invokedWith.value) in allCommands)
    ensures ctx.command.None? && r.command.Some? ==>
              r.command.value == allCommands[HyphensToUnderscores(ctx.invokedWith.value)]
  {
    if ctx.command.None? && ctx.invokedWith.Some? && ctx.invokedWith.value != "" then
      var name := HyphensToUnderscores(ctx.invokedWith.value);
      ctx.(command := if name in allCommands then Some(allCommands[name]) else None)
    else
      ctx
  }

  /**
   * A command registered under an underscore name is found from its hyphenated
   * spelling, e.g. `reset-interactions` finds `reset_interactions`.
   */
  lemma HyphenatedNameFindsCommand<C>(allCommands: map<string, C>, typed: string, name: string)
    requires name in allCommands && typed != ""
    requires |typed| == |name|
    requires forall i :: 0 <= i < |typed| ==> typed[i] == name[i] || (typed[i] == '-' && name[i] == '_')
    requires '-' !in name
    ensures GetContext(Context(None, Some(typed)), allCommands).command == Some(allCommands[name])
  {
    assert HyphensToUnderscores(typed) == name;
  }

  /** The message sent to the owner when the gateway connection is (re)established. */
  function ConnectMessage(initLoad: bool, timeFormat: string): (msg: string)
    ensures initLoad ==> msg == "Logged in at " + timeFormat + "!"
    ensures !initLoad ==> msg == "Reconnected at " + timeFormat + "!"
    ensures msg[|msg| - 1] == '!'
  {
    if initLoad then "Logged in at " + timeFormat + "!" else "Reconnected at " + timeFormat + "!"
  }

  /** The first connection and a reconnection are told apart by the message's first word. */
  lemma ConnectMessagesDiffer(t1: string, t2: string)
    ensures ConnectMessage(true, t1)[..9] == "Logged in"
    ensures ConnectMessage(false, t2)[..11] == "Reconnected"
    ensures ConnectMessage(true, t1) != ConnectMessage(false, t2)
  {
    assert ConnectMessage(true, t1)[0] == 'L';
    assert ConnectMessage(false, t2)[0] == 'R';
  }
}
