/**
 * The account e-mail of `BaseMail` (login/mail/BaseMail.java): the template
 * text with its placeholders filled in, and the decision whether a message
 * is built at all. The SMTP session and transport are not modelled.
 */
module Mail {
  import opened Wire
  import opened JavaText

  /** The placeholder for the `i`-th argument: "%var" + i + "%". */
  function VarToken(i: nat): (t: JString)
    ensures |t| > 0 && t[0] == '%' as JChar
  {
    Lit("%var") + Decimal(i) + Lit("%")
  }

  /** The placeholder for the account name. */
  const ACCOUNT_TOKEN: JString := Lit("%accountname%")

  /** The template after the argument placeholders were replaced, for ascending `i`. */
  function ReplaceVars(html: JString, args: seq<JString>): JString
    decreases |args|
  {
    if args == [] then html
    else
      var i := |args| - 1;
      ReplaceAll(ReplaceVars(html, args[..i]), VarToken(i), args[i])
  }

  /** The finished text: the argument placeholders (none when `args` is null), then the account name. */
  function CompiledHtml(account: JString, html: JString, args: Option<seq<JString>>): JString
  {
    var h := if args.Some? then ReplaceVars(html, args.value) else html;
    ReplaceAll(h, ACCOUNT_TOKEN, account)
  }

  /** `compileHtml(account, html, args)`: one `replace` per argument in ascending order, then the account name. */
  method CompileHtml(account: JString, html: JString, args: Option<seq<JString>>) returns (r: JString)
    ensures r == CompiledHtml(account, html, args)
  {
    var h := html;
    if args.Some? {
      var a := args.value;
      var i := 0;
      while i < |a|
        invariant 0 <= i <= |a| && h == ReplaceVars(html, a[..i])
      {
        assert a[..i + 1][..i] == a[..i];
        h := ReplaceAll(h, VarToken(i), a[i]);
        i := i + 1;
      }
      assert a[..i] == a;
    }
    r := ReplaceAll(h, ACCOUNT_TOKEN, account);
  }

  /** A token that starts with '%' does not occur in text without '%'. */
  lemma AbsentWithoutPercent(s: JString, t: JString)
    requires |t| > 0 && t[0] == '%' as JChar && '%' as JChar !in s
    ensures !Occurs(t, s)
  {
    forall i | 0 <= i <= |s| - |t|
      ensures !OccursAt(t, s, i)
    {
      assert s[i..i + |t|][0] == s[i];
    }
  }

  /** A template without any '%' comes back unchanged, whatever the arguments. */
  lemma {:induction false} PlainTemplate(account: JString, html: JString, args: Option<seq<JString>>)
    requires '%' as JChar !in html
    ensures CompiledHtml(account, html, args) == html
  {
    if args.Some? {
      PlainVars(html, args.value);
    }
    AbsentWithoutPercent(html, ACCOUNT_TOKEN);
    ReplaceAbsent(html, ACCOUNT_TOKEN, account);
  }

  lemma {:induction false} PlainVars(html: JString, args: seq<JString>)
    requires '%' as JChar !in html
    ensures ReplaceVars(html, args) == html
    decreases |args|
  {
    if args != [] {
      var i := |args| - 1;
      PlainVars(html, args[..i]);
      AbsentWithoutPercent(html, VarToken(i));
      ReplaceAbsent(html, VarToken(i), args[i]);
    }
  }

  /** Filling every placeholder with itself leaves the template unchanged. */
  lemma {:induction false} SelfFill(html: JString, args: seq<JString>)
    requires forall i :: 0 <= i < |args| ==> args[i] == VarToken(i)
    ensures CompiledHtml(ACCOUNT_TOKEN, html, Some(args)) == html
  {
    SelfFillVars(html, args);
    ReplaceBySelf(html, ACCOUNT_TOKEN);
  }

  lemma {:induction false} SelfFillVars(html: JString, args: seq<JString>)
    requires forall i :: 0 <= i < |args| ==> args[i] == VarToken(i)
    ensures ReplaceVars(html, args) == html
    decreases |args|
  {
    if args != [] {
      var i := |args| - 1;
      SelfFillVars(html, args[..i]);
      ReplaceBySelf(html, VarToken(i));
    }
  }

  /** A whole-token text is replaced by the replacement. */
  lemma ReplaceWhole(t: JString, r: JString)
    requires |t| > 0
    ensures ReplaceAll(t, t, r) == r
  {
    assert t[|t|..] == [];
    assert r + [] == r;
  }

  /**
   * The account name is filled in after the arguments, so an argument that
   * is itself "%accountname%" ends up as the account name.
   */
  lemma AccountAfterVars(account: JString)
    ensures CompiledHtml(account, VarToken(0), Some([ACCOUNT_TOKEN])) == account
  {
    assert [ACCOUNT_TOKEN][..0] == [];
    assert ReplaceVars(VarToken(0), [ACCOUNT_TOKEN]) == ReplaceAll(VarToken(0), VarToken(0), ACCOUNT_TOKEN);
    ReplaceWhole(VarToken(0), ACCOUNT_TOKEN);
    ReplaceWhole(ACCOUNT_TOKEN, account);
  }

  /** A mail template: its subject and HTML text. */
  datatype MailContent = MailContent(subject: JString, text: JString)

  /** The message handed to the mail transport. */
  datatype Message = Message(recipient: JString, subject: JString, body: JString)

  /**
   * One `BaseMail`. `mailAddr` stands for the address the account lookup
   * found (None when there is none) and `content` for the template looked up
   * by id (None when there is none).
   */
  class BaseMail {
    var messageMime: Option<Message>

    /** Builds the message only when both the address and the template exist. */
    constructor (account: JString, mailAddr: Option<JString>, content: Option<MailContent>, args: Option<seq<JString>>)
      ensures mailAddr.None? || content.None? ==> messageMime.None?
      ensures mailAddr.Some? && content.Some? ==>
        messageMime == Some(Message(mailAddr.value, content.value.subject,
                                    CompiledHtml(account, content.value.text, args)))
    {
      messageMime := None;
      new;
      if mailAddr.None? {
        return;
      }
      if content.None? {
        return;
      }
      var message := CompileHtml(account, content.value.text, args);
      messageMime := Some(Message(mailAddr.value, content.value.subject, message));
    }

    /** `run`: the message sent, or nothing when none was built. */
    method Run() returns (sent: Option<Message>)
      ensures sent.Some? <==> messageMime.Some?
      ensures sent.Some? ==> sent.value == messageMime.value
    {
      sent := messageMime;
    }
  }
}
