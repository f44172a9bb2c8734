/** Rendering the message template for every loaded user and fanning the
    result out into outbound emails (src/main.rs, `create_emails` and the
    `Email`, `EmailTemplate` and `User` records it reads and produces). */
module Emails {
  import opened Text

  datatype Option<T> = None | Some(value: T)

  /** One outbound message, as handed to the sending backend. */
  datatype Email = Email(to: string, cc: string, attachment: string, subject: string, body: string)

  /** The message template edited in the window. */
  datatype EmailTemplate = EmailTemplate(cc: string, subject: string, body: string)

  /** One row of the user list. */
  datatype User = User(email: string, password: string,
                       var1: Option<string>, var2: Option<string>, var3: Option<string>)

  /** A loaded user with the username and full name derived from its address. */
  type UserRow = (User, string, string)

  /** The part of the application state that `create_emails` reads:
      the password-hiding checkbox, the attachment path as text, the loaded
      users (absent until a user list has been read) and the template. */
  datatype EmailSenderApp = EmailSenderApp(
    hidePasswordFromCc: bool,
    attachment: string,
    users: Option<seq<UserRow>>,
    email: EmailTemplate)

  /** What the cc copy shows in place of the password. */
  const HiddenPassword := "[hidden]"

  // ---------------------------------------------------------------------
  // Placeholder substitution
  // ---------------------------------------------------------------------

  /** `as_deref().unwrap_or_default()`: a missing variable is empty text. */
  function VarText(v: Option<string>): string
  {
    match v
    case None => []
    case Some(s) => s
  }

  /** True when `text` holds none of the six recognised placeholders. */
  predicate FreeOfPlaceholders(text: string)
  {
    !Contains(text, "{username}") && !Contains(text, "{fullname}") && !Contains(text, "{password}")
    && !Contains(text, "{var1}") && !Contains(text, "{var2}") && !Contains(text, "{var3}")
  }

  /** The `.replace` chain: every occurrence of each placeholder, in the
      fixed order username, fullname, password, var1, var2, var3, is
      replaced by the row's value. A text without placeholders comes out
      unchanged. */
  function Render(text: string, username: string, fullname: string, password: string, user: User): (r: string)
    ensures FreeOfPlaceholders(text) ==> r == text
  {
    ReplaceAll(ReplaceAll(ReplaceAll(ReplaceAll(ReplaceAll(ReplaceAll(text,
      "{username}", username),
      "{fullname}", fullname),
      "{password}", password),
      "{var1}", VarText(user.var1)),
      "{var2}", VarText(user.var2)),
      "{var3}", VarText(user.var3))
  }

  /** Replacing is sequential: a placeholder that an earlier value brings
      into the text is itself replaced by a later step, so a username of
      "{password}" renders as the password. */
  lemma SubstitutionIsSequential(fullname: string, password: string, user: User)
    requires !Contains(password, "{var1}") && !Contains(password, "{var2}") && !Contains(password, "{var3}")
    ensures Render("{username}", "{password}", fullname, password, user) == password
  {
    ReplaceWhole("{username}", "{password}");
    ContainsSameLength("{password}", "{fullname}");
    ReplaceWhole("{password}", password);
  }

  /** Text without an opening brace holds no placeholder. */
  lemma BraceFreeHasNoPlaceholder(s: string)
    requires '{' !in s
    ensures FreeOfPlaceholders(s)
  {
    ContainsFirstChar(s, "{username}");
    ContainsFirstChar(s, "{fullname}");
    ContainsFirstChar(s, "{password}");
    ContainsFirstChar(s, "{var1}");
    ContainsFirstChar(s, "{var2}");
    ContainsFirstChar(s, "{var3}");
  }

  /** The letters that tell the placeholders apart, so none is a prefix of another. */
  lemma PlaceholderLetters()
    ensures "{username}"[1] == 'u' && "{fullname}"[1] == 'f' && "{password}"[1] == 'p'
    ensures "{var1}"[4] == '1' && "{var2}"[4] == '2' && "{var3}"[4] == '3'
  {
  }

  /** Every `{username}` becomes the username: brace-free pieces joined by
      the placeholder render as the same pieces joined by a brace-free value. */
  lemma RenderUsername(xs: seq<string>, username: string, fullname: string, password: string, user: User)
    requires xs != [] && forall x :: x in xs ==> '{' !in x
    requires '{' !in username
    ensures Render(Join(xs, "{username}"), username, fullname, password, user) == Join(xs, username)
  {
    ReplaceJoin(xs, "{username}", username);
    JoinAvoids(xs, username, '{');
    BraceFreeHasNoPlaceholder(Join(xs, username));
  }

  /** Every `{fullname}` becomes the full name. */
  lemma RenderFullname(xs: seq<string>, username: string, fullname: string, password: string, user: User)
    requires xs != [] && forall x :: x in xs ==> '{' !in x
    requires '{' !in fullname
    ensures Render(Join(xs, "{fullname}"), username, fullname, password, user) == Join(xs, fullname)
  {
    PlaceholderLetters();
    ReplaceOtherJoin(xs, "{fullname}", "{username}", username);
    ReplaceJoin(xs, "{fullname}", fullname);
    JoinAvoids(xs, fullname, '{');
    BraceFreeHasNoPlaceholder(Join(xs, fullname));
  }

  /** Every `{password}` becomes the password given (the real one, or
      "[hidden]" for the cc copy's body). */
  lemma RenderPassword(xs: seq<string>, username: string, fullname: string, password: string, user: User)
    requires xs != [] && forall x :: x in xs ==> '{' !in x
    requires '{' !in password
    ensures Render(Join(xs, "{password}"), username, fullname, password, user) == Join(xs, password)
  {
    PlaceholderLetters();
    ReplaceOtherJoin(xs, "{password}", "{username}", username);
    ReplaceOtherJoin(xs, "{password}", "{fullname}", fullname);
    ReplaceJoin(xs, "{password}", password);
    JoinAvoids(xs, password, '{');
    BraceFreeHasNoPlaceholder(Join(xs, password));
  }

  /** Every `{var1}` becomes the first variable, or nothing when it is missing. */
  lemma RenderVar1(xs: seq<string>, username: string, fullname: string, password: string, user: User)
    requires xs != [] && forall x :: x in xs ==> '{' !in x
    requires '{' !in VarText(user.var1)
    ensures Render(Join(xs, "{var1}"), username, fullname, password, user) == Join(xs, VarText(user.var1))
  {
    PlaceholderLetters();
    ReplaceOtherJoin(xs, "{var1}", "{username}", username);
    ReplaceOtherJoin(xs, "{var1}", "{fullname}", fullname);
    ReplaceOtherJoin(xs, "{var1}", "{password}", password);
    ReplaceJoin(xs, "{var1}", VarText(user.var1));
    JoinAvoids(xs, VarText(user.var1), '{');
    BraceFreeHasNoPlaceholder(Join(xs, VarText(user.var1)));
  }

  /** Every `{var2}` becomes the second variable, or nothing when it is missing. */
  lemma RenderVar2(xs: seq<string>, username: string, fullname: string, password: string, user: User)
    requires xs != [] && forall x :: x in xs ==> '{' !in x
    requires '{' !in VarText(user.var2)
    ensures Render(Join(xs, "{var2}"), username, fullname, password, user) == Join(xs, VarText(user.var2))
  {
    PlaceholderLetters();
    ReplaceOtherJoin(xs, "{var2}", "{username}", username);
    ReplaceOtherJoin(xs, "{var2}", "{fullname}", fullname);
    ReplaceOtherJoin(xs, "{var2}", "{password}", password);
    ReplaceOtherJoin(xs, "{var2}", "{var1}", VarText(user.var1));
    ReplaceJoin(xs, "{var2}", VarText(user.var2));
    JoinAvoids(xs, VarText(user.var2), '{');
    BraceFreeHasNoPlaceholder(Join(xs, VarText(user.var2)));
  }

  /** Every `{var3}` becomes the third variable, or nothing when it is missing. */
  lemma RenderVar3(xs: seq<string>, username: string, fullname: string, password: string, user: User)
    requires xs != [] && forall x :: x in xs ==> '{' !in x
    requires '{' !in VarText(user.var3)
    ensures Render(Join(xs, "{var3}"), username, fullname, password, user) == Join(xs, VarText(user.var3))
  {
    PlaceholderLetters();
    ReplaceOtherJoin(xs, "{var3}", "{username}", username);
    ReplaceOtherJoin(xs, "{var3}", "{fullname}", fullname);
    ReplaceOtherJoin(xs, "{var3}", "{password}", password);
    ReplaceOtherJoin(xs, "{var3}", "{var1}", VarText(user.var1));
    ReplaceOtherJoin(xs, "{var3}", "{var2}", VarText(user.var2));
    ReplaceJoin(xs, "{var3}", VarText(user.var3));
  }

  /** A missing variable renders as empty text. */
  lemma MissingVariablesAreEmpty(username: string, fullname: string, password: string, user: User)
    ensures user.var1.None? ==> Render("{var1}", username, fullname, password, user) == []
    ensures user.var2.None? ==> Render("{var2}", username, fullname, password, user) == []
    ensures user.var3.None? ==> Render("{var3}", username, fullname, password, user) == []
  {
    var ends: seq<string> := [[], []];
    assert Join(ends, "{var1}") == "{var1}" && Join(ends, "{var2}") == "{var2}"
      && Join(ends, "{var3}") == "{var3}" && Join(ends, []) == [];
    if user.var1.None? {
      RenderVar1(ends, username, fullname, password, user);
    }
    if user.var2.None? {
      RenderVar2(ends, username, fullname, password, user);
    }
    if user.var3.None? {
      RenderVar3(ends, username, fullname, password, user);
    }
  }

  // ---------------------------------------------------------------------
  // Rendering a whole template
  // ---------------------------------------------------------------------

  /** The six placeholders, in the order the chain replaces them. */
  datatype Placeholder = UsernameKey | FullnameKey | PasswordKey | Var1Key | Var2Key | Var3Key

  /** The literal text of a placeholder: `{` followed by brace-free text. */
  function Key(p: Placeholder): (k: string)
    ensures k != [] && k[0] == '{' && '{' !in k[1..]
  {
    match p
    case UsernameKey => "{username}"
    case FullnameKey => "{fullname}"
    case PasswordKey => "{password}"
    case Var1Key => "{var1}"
    case Var2Key => "{var2}"
    case Var3Key => "{var3}"
  }

  /** No proper suffix of a placeholder is also a prefix of it, so
      occurrences never overlap and `ReplaceAllByPieces` applies to every
      step of the chain, whatever the text. */
  lemma KeyBorderFree(p: Placeholder)
    ensures BorderFree(Key(p))
  {
    BorderFreeByHead(Key(p));
  }

  /** The position of a placeholder's step in the chain. */
  function Step(p: Placeholder): (n: nat)
    ensures n < 6
  {
    match p
    case UsernameKey => 0
    case FullnameKey => 1
    case PasswordKey => 2
    case Var1Key => 3
    case Var2Key => 4
    case Var3Key => 5
  }

  /** What a placeholder is replaced by for one row. */
  function Value(p: Placeholder, username: string, fullname: string, password: string, user: User): string
  {
    match p
    case UsernameKey => username
    case FullnameKey => fullname
    case PasswordKey => password
    case Var1Key => VarText(user.var1)
    case Var2Key => VarText(user.var2)
    case Var3Key => VarText(user.var3)
  }

  /** Distinct placeholders differ at a fixed position, so none is a prefix of another. */
  lemma KeysApart(p: Placeholder, q: Placeholder)
    requires p != q
    ensures !(Key(p) <= Key(q)) && Step(p) != Step(q)
  {
    PlaceholderLetters();
  }

  /** A template read as literal text and placeholders. */
  datatype Part = Literal(text: string) | Slot(key: Placeholder)

  /** The text of a template, each placeholder written out. */
  function TemplateText(t: seq<Part>): string
  {
    if t == [] then []
    else (match t[0] case Literal(s) => s case Slot(p) => Key(p)) + TemplateText(t[1..])
  }

  /** The template with every placeholder replaced by its value. */
  function Filled(t: seq<Part>, username: string, fullname: string, password: string, user: User): string
  {
    if t == [] then []
    else
      var head := match t[0] case Literal(s) => s case Slot(p) => Value(p, username, fullname, password, user);
      head + Filled(t[1..], username, fullname, password, user)
  }

  /** One part after the first `n` steps of the chain. */
  function PartAfter(part: Part, n: nat, username: string, fullname: string, password: string, user: User): string
  {
    match part
    case Literal(s) => s
    case Slot(p) => if Step(p) < n then Value(p, username, fullname, password, user) else Key(p)
  }

  /** The template after the first `n` steps of the chain. */
  function After(t: seq<Part>, n: nat, username: string, fullname: string, password: string, user: User): string
  {
    if t == [] then []
    else PartAfter(t[0], n, username, fullname, password, user) + After(t[1..], n, username, fullname, password, user)
  }

  predicate LiteralsBraceFree(t: seq<Part>)
  {
    forall part :: part in t && part.Literal? ==> '{' !in part.text
  }

  predicate ValuesBraceFree(username: string, fullname: string, password: string, user: User)
  {
    '{' !in username && '{' !in fullname && '{' !in password
    && '{' !in VarText(user.var1) && '{' !in VarText(user.var2) && '{' !in VarText(user.var3)
  }

  /** Before any step the template is its own text; after all six it is filled. */
  lemma {:induction false} AfterEnds(t: seq<Part>, username: string, fullname: string, password: string, user: User)
    ensures After(t, 0, username, fullname, password, user) == TemplateText(t)
    ensures After(t, 6, username, fullname, password, user) == Filled(t, username, fullname, password, user)
  {
    if t != [] {
      AfterEnds(t[1..], username, fullname, password, user);
    }
  }

  /** One step on one part: the step's own placeholder becomes its value,
      and everything else is copied while replacing goes on after it. */
  lemma PartStep(part: Part, rest: string, p: Placeholder, username: string, fullname: string, password: string, user: User)
    requires part.Literal? ==> '{' !in part.text
    requires ValuesBraceFree(username, fullname, password, user)
    ensures var n := Step(p);
      ReplaceAll(PartAfter(part, n, username, fullname, password, user) + rest, Key(p), Value(p, username, fullname, password, user))
      == PartAfter(part, n + 1, username, fullname, password, user) + ReplaceAll(rest, Key(p), Value(p, username, fullname, password, user))
  {
    var v := Value(p, username, fullname, password, user);
    match part
    case Literal(s) =>
      ReplaceSkipsFree(s, rest, Key(p), v);
    case Slot(q) =>
      if Step(q) < Step(p) {
        ReplaceSkipsFree(Value(q, username, fullname, password, user), rest, Key(p), v);
      } else if q == p {
        ReplaceAtStart(Key(p), rest, v);
      } else {
        KeysApart(q, p);
        KeysApart(p, q);
        ReplaceSkipsOther(Key(q), rest, Key(p), v);
      }
  }

  /** One step of the chain on a whole template. */
  lemma {:induction false} TemplateStep(t: seq<Part>, p: Placeholder, username: string, fullname: string, password: string, user: User)
    requires LiteralsBraceFree(t) && ValuesBraceFree(username, fullname, password, user)
    ensures ReplaceAll(After(t, Step(p), username, fullname, password, user), Key(p), Value(p, username, fullname, password, user))
      == After(t, Step(p) + 1, username, fullname, password, user)
  {
    if t != [] {
      assert t[0] in t;
      TemplateStep(t[1..], p, username, fullname, password, user);
      PartStep(t[0], After(t[1..], Step(p), username, fullname, password, user), p, username, fullname, password, user);
    }
  }

  /** An ordinary template, brace-free literal text mixed with any of the
      six placeholders, rendered with brace-free values, comes out as the
      literal text with every placeholder replaced by its value. */
  lemma RenderTemplate(t: seq<Part>, username: string, fullname: string, password: string, user: User)
    requires LiteralsBraceFree(t) && ValuesBraceFree(username, fullname, password, user)
    ensures Render(TemplateText(t), username, fullname, password, user) == Filled(t, username, fullname, password, user)
  {
    AfterEnds(t, username, fullname, password, user);
    var a0 := After(t, 0, username, fullname, password, user);
    var a1 := After(t, 1, username, fullname, password, user);
    var a2 := After(t, 2, username, fullname, password, user);
    var a3 := After(t, 3, username, fullname, password, user);
    var a4 := After(t, 4, username, fullname, password, user);
    var a5 := After(t, 5, username, fullname, password, user);
    var a6 := After(t, 6, username, fullname, password, user);
    assert ReplaceAll(a0, "{username}", username) == a1 by {
      TemplateStep(t, UsernameKey, username, fullname, password, user);
    }
    assert ReplaceAll(a1, "{fullname}", fullname) == a2 by {
      TemplateStep(t, FullnameKey, username, fullname, password, user);
    }
    assert ReplaceAll(a2, "{password}", password) == a3 by {
      TemplateStep(t, PasswordKey, username, fullname, password, user);
    }
    assert ReplaceAll(a3, "{var1}", VarText(user.var1)) == a4 by {
      TemplateStep(t, Var1Key, username, fullname, password, user);
    }
    assert ReplaceAll(a4, "{var2}", VarText(user.var2)) == a5 by {
      TemplateStep(t, Var2Key, username, fullname, password, user);
    }
    assert ReplaceAll(a5, "{var3}", VarText(user.var3)) == a6 by {
      TemplateStep(t, Var3Key, username, fullname, password, user);
    }
  }

  // ---------------------------------------------------------------------
  // Fan-out
  // ---------------------------------------------------------------------

  /** The cc recipient gets a separate copy without the password. */
  predicate SplitsCc(app: EmailSenderApp)
  {
    app.hidePasswordFromCc && app.email.cc != []
  }

  /** How many emails each user yields under the app's settings. */
  function EmailsPerUser(app: EmailSenderApp): (n: nat)
    ensures n == 1 || n == 2
    ensures n == 2 <==> SplitsCc(app)
  {
    if SplitsCc(app) then 2 else 1
  }

  /** The emails one user row yields, primary first. */
  function UserEmails(app: EmailSenderApp, row: UserRow): (es: seq<Email>)
    ensures |es| == EmailsPerUser(app)
  {
    var (user, username, fullname) := row;
    var body := Render(app.email.body, username, fullname, user.password, user);
    var subject := Render(app.email.subject, username, fullname, user.password, user);
    if SplitsCc(app) then
      var bodyForCc := Render(app.email.body, username, fullname, HiddenPassword, user);
      [Email(user.email, [], app.attachment, subject, body),
       Email(app.email.cc, [], app.attachment, subject, bodyForCc)]
    else
      [Email(user.email, app.email.cc, app.attachment, subject, body)]
  }

  /** The emails of all rows, grouped by row in row order. */
  function AllEmails(app: EmailSenderApp, rows: seq<UserRow>): seq<Email>
  {
    if rows == [] then []
    else AllEmails(app, rows[..|rows| - 1]) + UserEmails(app, rows[|rows| - 1])
  }

  /** `create_emails`: walks the loaded users and pushes each one's emails.
      The source unwraps the user list, so it must have been loaded. */
  method CreateEmails(app: EmailSenderApp) returns (emails: seq<Email>)
    requires app.users.Some?
    ensures emails == AllEmails(app, app.users.value)
    ensures |emails| == if SplitsCc(app) then 2 * |app.users.value| else |app.users.value|
  {
    emails := [];
    var users := app.users.value;
    for i := 0 to |users|
      invariant emails == AllEmails(app, users[..i])
    {
      var (user, username, fullname) := users[i];
      var attachment := app.attachment;
      var body := Render(app.email.body, username, fullname, user.password, user);
      var subject := Render(app.email.subject, username, fullname, user.password, user);
      if app.hidePasswordFromCc && app.email.cc != [] {
        var bodyForCc := Render(app.email.body, username, fullname, HiddenPassword, user);
        emails := emails + [Email(user.email, [], attachment, subject, body)];
        emails := emails + [Email(app.email.cc, [], attachment, subject, bodyForCc)];
      } else {
        emails := emails + [Email(user.email, app.email.cc, attachment, subject, body)];
      }
      assert users[..i + 1][..i] == users[..i];
    }
    assert users[..|users|] == users;
    AllEmailsLength(app, users);
  }

  // ---------------------------------------------------------------------
  // Properties
  // ---------------------------------------------------------------------

  /** Each row contributes the same number of emails: two under the cc
      split, one otherwise. */
  lemma {:induction false} AllEmailsLength(app: EmailSenderApp, rows: seq<UserRow>)
    ensures |AllEmails(app, rows)| == if SplitsCc(app) then 2 * |rows| else |rows|
  {
    if rows != [] {
      AllEmailsLength(app, rows[..|rows| - 1]);
    }
  }

  /** The emails come grouped by row, in row order: the `j`-th email of row
      `i` sits at position `2 * i + j` under the cc split and at `i` otherwise. */
  lemma {:induction false} AllEmailsGrouped(app: EmailSenderApp, rows: seq<UserRow>, i: nat, j: nat)
    requires i < |rows| && j < EmailsPerUser(app)
    ensures var p := if SplitsCc(app) then 2 * i + j else i;
      p < |AllEmails(app, rows)| && AllEmails(app, rows)[p] == UserEmails(app, rows[i])[j]
  {
    var front := rows[..|rows| - 1];
    AllEmailsLength(app, front);
    AllEmailsLength(app, rows);
    if i < |rows| - 1 {
      AllEmailsGrouped(app, front, i, j);
      assert front[i] == rows[i];
    }
  }

  /** Policy "visible cc": one email per user, to the user, carrying the
      template's cc and both texts rendered with the real password. */
  lemma VisibleCc(app: EmailSenderApp, row: UserRow)
    requires !SplitsCc(app)
    ensures var es := UserEmails(app, row);
      var (user, username, fullname) := row;
      |es| == 1 && es[0].to == user.email && es[0].cc == app.email.cc
      && es[0].subject == Render(app.email.subject, username, fullname, user.password, user)
      && es[0].body == Render(app.email.body, username, fullname, user.password, user)
  {
  }

  /** Policy "hidden-password cc split": two emails per user, the primary to
      the user and then the copy to the template's cc, both with an empty cc
      and the same subject rendered with the real password; only the copy's
      body has "[hidden]" in place of the password. */
  lemma HiddenCc(app: EmailSenderApp, row: UserRow)
    requires SplitsCc(app)
    ensures var es := UserEmails(app, row);
      var (user, username, fullname) := row;
      |es| == 2 && es[0].to == user.email && es[1].to == app.email.cc
      && es[0].cc == [] && es[1].cc == []
      && es[0].subject == es[1].subject == Render(app.email.subject, username, fullname, user.password, user)
      && es[0].body == Render(app.email.body, username, fullname, user.password, user)
      && es[1].body == Render(app.email.body, username, fullname, HiddenPassword, user)
  {
  }

  /** Only the body is hidden: a subject that is just the password
      placeholder shows the real password in the cc copy too. */
  lemma CcCopySubjectShowsPassword(app: EmailSenderApp, user: User, username: string, fullname: string)
    requires SplitsCc(app) && app.email.subject == "{password}"
    requires !Contains(user.password, "{var1}") && !Contains(user.password, "{var2}")
      && !Contains(user.password, "{var3}")
    ensures UserEmails(app, (user, username, fullname))[1].subject == user.password
  {
    ContainsSameLength("{password}", "{username}");
    ContainsSameLength("{password}", "{fullname}");
    ReplaceWhole("{password}", user.password);
    assert Render("{password}", username, fullname, user.password, user) == user.password;
  }

  /** The cc copy's body does not depend on the user's password. */
  lemma CcCopyIgnoresPassword(app: EmailSenderApp, user: User, username: string, fullname: string, other: string)
    requires SplitsCc(app)
    ensures UserEmails(app, (user, username, fullname))[1].body
         == UserEmails(app, (user.(password := other), username, fullname))[1].body
  {
  }

  /** Every email carries the app's attachment. */
  lemma {:induction false} AllEmailsCarryAttachment(app: EmailSenderApp, rows: seq<UserRow>)
    ensures forall e :: e in AllEmails(app, rows) ==> e.attachment == app.attachment
  {
    if rows != [] {
      AllEmailsCarryAttachment(app, rows[..|rows| - 1]);
    }
  }

  /** A template whose subject and body hold no placeholder is sent verbatim. */
  lemma {:induction false} VerbatimTemplate(app: EmailSenderApp, rows: seq<UserRow>)
    requires FreeOfPlaceholders(app.email.subject) && FreeOfPlaceholders(app.email.body)
    ensures forall e :: e in AllEmails(app, rows) ==>
      e.subject == app.email.subject && e.body == app.email.body
  {
    if rows != [] {
      VerbatimTemplate(app, rows[..|rows| - 1]);
    }
  }
}
