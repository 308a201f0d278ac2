/** The request routing and message helpers of `bot.py`, without Flask and the Telegram client. */
module Bot {
  import opened Wrappers
  import opened Utils

  /** The environment `bot.py` reads at start-up, after its checks. */
  datatype Config = Config(botToken: string, webhookSecret: string, controlSecret: Option<string>)

  /** The two settings whose absence makes start-up exit. */
  datatype StartupError = BotTokenNotSet | WebhookSecretNotSet

  /** Python's truth value of a string that may be `None`. */
  predicate IsSet(o: Option<string>)
    ensures IsSet(o) <==> o != None && o != Some("")
  {
    o.Some? && o.value != ""
  }

  /** The start-up checks: `BOT_TOKEN`, then `WEBHOOK_SECRET`, must be set and non-empty. */
  function Startup(botToken: Option<string>, controlSecret: Option<string>, webhookSecret: Option<string>)
    : (r: Result<Config, StartupError>)
    ensures r.Success? <==> IsSet(botToken) && IsSet(webhookSecret)
    ensures r == Failure(BotTokenNotSet) <==> !IsSet(botToken)
    ensures r.Success? ==>
      r.value == Config(botToken.value, webhookSecret.value, controlSecret) && r.value.webhookSecret != ""
  {
    if !IsSet(botToken) then Failure(BotTokenNotSet)
    else if !IsSet(webhookSecret) then Failure(WebhookSecretNotSet)
    else Success(Config(botToken.value, webhookSecret.value, controlSecret))
  }

  /** `request.args.get(key, default)`. */
  function ArgOr(args: map<string, string>, key: string, default: string): (v: string)
    ensures v == match Arg(args, key) case Some(w) => w case None => default
  {
    if key in args then args[key] else default
  }

  /** `request.args.get(key)`. */
  function Arg(args: map<string, string>, key: string): (v: Option<string>)
    ensures v.Some? <==> key in args
    ensures v.Some? ==> v.value == args[key]
  {
    if key in args then Some(args[key]) else None
  }

  /**
   * Where `on_request` sends a request: the webhook (which then answers `'OK'`), the control
   * endpoint or the info endpoint, the last two with the request's `action` argument.
   */
  datatype Route = Webhook | Control(action: Option<string>) | Info(action: Option<string>)

  /** The routing decision of `on_request`. */
  function OnRequest(config: Config, args: map<string, string>): (route: Route)
    ensures route == Webhook <==> ArgOr(args, "whs", "") == config.webhookSecret
    ensures route.Control? ==>
      IsSet(config.controlSecret) && ArgOr(args, "ctrl", "") == config.controlSecret.value
    ensures !route.Webhook? ==> route.action == Arg(args, "action")
  {
    if ArgOr(args, "whs", "") == config.webhookSecret then Webhook
    else if IsSet(config.controlSecret) && ArgOr(args, "ctrl", "") == config.controlSecret.value then
      Control(Arg(args, "action"))
    else Info(Arg(args, "action"))
  }

  /** The control route is taken exactly when the webhook check fails and `ctrl` matches a set secret. */
  lemma ControlRoute(config: Config, args: map<string, string>)
    ensures OnRequest(config, args).Control? <==>
      ArgOr(args, "whs", "") != config.webhookSecret
      && IsSet(config.controlSecret) && ArgOr(args, "ctrl", "") == config.controlSecret.value
  {
  }

  /** A matching `whs` wins whatever `ctrl` and `action` hold. */
  lemma WebhookIgnoresOtherArgs(config: Config, args: map<string, string>, ctrl: string, action: string)
    requires OnRequest(config, args) == Webhook
    ensures OnRequest(config, args["ctrl" := ctrl]) == Webhook
    ensures OnRequest(config, args["action" := action]) == Webhook
  {
  }

  /** Only `whs`, `ctrl` and `action` matter to the routing. */
  lemma RouteDependsOnThreeArgs(config: Config, args: map<string, string>, args': map<string, string>)
    requires forall key :: key in {"whs", "ctrl", "action"} ==> Arg(args, key) == Arg(args', key)
    ensures OnRequest(config, args) == OnRequest(config, args')
  {
    assert Arg(args, "whs") == Arg(args', "whs");
    assert Arg(args, "ctrl") == Arg(args', "ctrl");
    assert Arg(args, "action") == Arg(args', "action");
  }

  /**
   * With a configuration that passed start-up, a request without `whs` never reaches the
   * webhook, and with `CONTROL_SECRET` unset or empty no request reaches the control endpoint.
   */
  lemma NoSecretNoPrivilege(botToken: Option<string>, controlSecret: Option<string>,
                            webhookSecret: Option<string>, args: map<string, string>)
    requires Startup(botToken, controlSecret, webhookSecret).Success?
    ensures var config := Startup(botToken, controlSecret, webhookSecret).value;
      && ("whs" !in args ==> OnRequest(config, args) != Webhook)
      && (!IsSet(controlSecret) ==> !OnRequest(config, args).Control?)
  {
  }

  const ParseModeKey: string := "parse_mode"
  const ChatIdKey: string := "chat_id"
  const ReplyToKey: string := "reply_to_message_id"

  /**
   * `sendMessage(**args)`: the keyword arguments it passes on to the Telegram client's
   * `send_message`, with the shorthand `parse_mode='md'` rewritten to `'MarkdownV2'`.
   */
  method SendMessage(args: map<string, Value>) returns (sent: map<string, Value>)
    ensures sent.Keys == args.Keys
    ensures ParseModeKey in args && args[ParseModeKey] == Str("md") ==>
      sent[ParseModeKey] == Str("MarkdownV2")
    ensures forall k :: k in args && !(k == ParseModeKey && args[k] == Str("md")) ==> sent[k] == args[k]
  {
    sent := args;
    if ParseModeKey in sent && sent[ParseModeKey] == Str("md") {
      sent := sent[ParseModeKey := Str("MarkdownV2")];
    }
  }

  /** The two fields of a Telegram update that `replyMessage` reads. */
  datatype Update = Update(chatId: int, messageId: int)

  /** Python's `TypeError` for a keyword argument given twice. */
  datatype CallError = DuplicateKeyword(name: string)

  /**
   * `replyMessage(update, **args)`: `sendMessage` with `chat_id` and `reply_to_message_id`
   * taken from the update. Passing either of those in `args` too is a `TypeError`.
   */
  method ReplyMessage(update: Update, args: map<string, Value>) returns (sent: Result<map<string, Value>, CallError>)
    ensures sent.Failure? <==> ChatIdKey in args || ReplyToKey in args
    ensures sent.Failure? ==> sent.error.name in args && sent.error.name in {ChatIdKey, ReplyToKey}
    ensures sent.Success? ==>
      && sent.value.Keys == args.Keys + {ChatIdKey, ReplyToKey}
      && sent.value[ChatIdKey] == Int(update.chatId)
      && sent.value[ReplyToKey] == Int(update.messageId)
      && (forall k :: k in args && k != ParseModeKey ==> sent.value[k] == args[k])
      && (ParseModeKey in args ==>
            sent.value[ParseModeKey] == if args[ParseModeKey] == Str("md") then Str("MarkdownV2") else args[ParseModeKey])
  {
    if ChatIdKey in args {
      return Failure(DuplicateKeyword(ChatIdKey));
    }
    if ReplyToKey in args {
      return Failure(DuplicateKeyword(ReplyToKey));
    }
    var call := args[ChatIdKey := Int(update.chatId)][ReplyToKey := Int(update.messageId)];
    var forwarded := SendMessage(call);
    sent := Success(forwarded);
  }
}
