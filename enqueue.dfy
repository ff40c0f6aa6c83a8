/**
 * `Mail.queue` (lib/mail.rb:27-48): fill in the default options, join the
 * address lists, and insert the row through `create!`, which refuses a row
 * whose subject, body, sender or recipients are blank (lib/mail.rb:16-19).
 */
module Enqueue {
  import opened Wrappers
  import opened Addresses
  import opened Records

  /** The defaults `queue` merges the caller's options into. */
  const DefaultPriority: int := 3
  const DefaultTries: int := 3

  /** `ActionMailer::Base.default_charset` as ActionMailer ships it. */
  const DefaultCharset: string := "utf-8"

  /**
   * The already-built message `queue` receives. An absent address list is
   * `None` (TMail answers `nil` for a header that was never set).
   */
  datatype Message = Message(
    subject: string,
    body: string,
    from: Option<seq<string>>,
    to: Option<seq<string>>,
    cc: Option<seq<string>>,
    bcc: Option<seq<string>>,
    contentType: string,
    charset: Option<string>)

  /** The recognised options; `None` is a key the caller did not pass. */
  datatype QueueOptions = QueueOptions(priority: Option<int>, tries: Option<int>, data: Option<string>)

  /** The columns with a presence validation. */
  datatype Field = Subject | Body | From | To

  datatype QueueError =
    | NoAddressList(field: Field)        // `nil.join` raises before `create!` is reached
    | RecordInvalid(missing: set<Field>) // `create!` failed its presence validations

  function Text(c: Content, f: Field): string {
    match f
    case Subject => c.subject
    case Body => c.body
    case From => c.from
    case To => c.to
  }

  /** The columns `create!` receives; `cc` and `bcc` go through `to_a`, so an absent list joins to "". */
  function ContentOf(msg: Message, opts: QueueOptions): Content
    requires msg.from.Some? && msg.to.Some?
  {
    Content(
      msg.subject, msg.body,
      Join(msg.from.value), Join(msg.to.value),
      Join(msg.cc.GetOr([])), Join(msg.bcc.GetOr([])),
      msg.contentType, msg.charset.GetOr(DefaultCharset), opts.data)
  }

  function Missing(c: Content): set<Field> {
    (if Blank(c.subject) then {Subject} else {}) +
    (if Blank(c.body) then {Body} else {}) +
    (if Blank(c.from) then {From} else {}) +
    (if Blank(c.to) then {To} else {})
  }

  /**
   * The row `queue` inserts under the primary key `id` at time `now`, or the
   * error it raises instead. A new row starts with no tries, unlocked, and
   * with both timestamps at `now` (the schema's column defaults and
   * ActiveRecord's timestamps).
   */
  function Build(msg: Message, opts: QueueOptions, id: nat, now: int): (r: Result<Mail, QueueError>)
    ensures msg.from.None? ==> r == Failure(NoAddressList(From))
    ensures msg.from.Some? && msg.to.None? ==> r == Failure(NoAddressList(To))
    ensures msg.from.Some? && msg.to.Some? ==>
      && (r.Success? <==> forall f :: !Blank(Text(ContentOf(msg, opts), f)))
      && (r.Failure? ==> r.error.RecordInvalid?)
      && (r.Failure? ==> forall f :: f in r.error.missing <==> Blank(Text(ContentOf(msg, opts), f)))
    ensures r.Success? ==>
      && r.value.id == id
      && r.value.content == ContentOf(msg, opts)
      && r.value.priority == opts.priority.GetOr(DefaultPriority)
      && r.value.maximumTries == opts.tries.GetOr(DefaultTries)
      && r.value.tries == 0 && !r.value.locked
      && r.value.createdAt == now && r.value.updatedAt == now
  {
    if msg.from.None? then Failure(NoAddressList(From))
    else if msg.to.None? then Failure(NoAddressList(To))
    else
      var c := ContentOf(msg, opts);
      var missing := Missing(c);
      assert forall f :: f in missing <==> Blank(Text(c, f));
      if missing != {} then Failure(RecordInvalid(missing))
      else
        Success(Mail(id, c, opts.priority.GetOr(DefaultPriority), 0, opts.tries.GetOr(DefaultTries), false, now, now))
  }

  /** Without options, a queued mail gets priority 3 and three tries. */
  lemma QueueDefaults(msg: Message, data: Option<string>, id: nat, now: int)
    requires Build(msg, QueueOptions(None, None, data), id, now).Success?
    ensures Build(msg, QueueOptions(None, None, data), id, now).value.priority == 3
    ensures Build(msg, QueueOptions(None, None, data), id, now).value.maximumTries == 3
  {
  }

  /**
   * A message with a non-blank subject and body and at least one
   * well-formed sender and recipient is always accepted; one with an empty
   * sender or recipient list never is.
   */
  lemma QueueAccepts(msg: Message, opts: QueueOptions, id: nat, now: int)
    requires msg.from.Some? && msg.to.Some?
    requires forall a :: a in msg.from.value ==> WellFormed(a)
    requires forall a :: a in msg.to.value ==> WellFormed(a)
    ensures Build(msg, opts, id, now).Success? <==>
      !Blank(msg.subject) && !Blank(msg.body) && msg.from.value != [] && msg.to.value != []
  {
    JoinBlank(msg.from.value);
    JoinBlank(msg.to.value);
    var c := ContentOf(msg, opts);
    assert Text(c, Subject) == msg.subject && Text(c, Body) == msg.body;
    assert Text(c, From) == Join(msg.from.value) && Text(c, To) == Join(msg.to.value);
  }
}
