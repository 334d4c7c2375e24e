/** What the assistant may propose, and the checks a proposed action passes before anybody sees it. */
module Actions {
  import opened Wrappers
  import opened Refs
  import Like
  import Numerals
  import Words

  const MAX_ACTION_MESSAGES := 50

  /** Arguments of `propose_action`, as the model sends them. */
  datatype ActionArgs = ActionArgs(kind: string, refs: seq<string>, folder: Option<string>, sender: Option<string>)

  datatype ActionKind = Move | Archive | MarkRead | CreateFilter

  datatype ActionMessage = ActionMessage(loc: Loc, subject: string)

  datatype FilterSpec = FilterSpec(sender: string, folder: string)

  datatype ActionProposal = ActionProposal(
    kind: ActionKind,
    summary: string,
    messages: seq<ActionMessage>,
    folder: Option<string>,
    filter: Option<FilterSpec>)

  function KindOf(name: string): Option<ActionKind> {
    if name == "move" then Some(Move)
    else if name == "archive" then Some(Archive)
    else if name == "mark_read" then Some(MarkRead)
    else if name == "create_filter" then Some(CreateFilter)
    else None
  }

  function Emails(n: nat): string {
    if n == 1 then "1 email" else Numerals.Decimal(n) + " emails"
  }

  function ExistingFolder(folders: seq<string>, name: string): Result<string, string> {
    if name in folders then Ok(name)
    else Err("folder \"" + name + "\" does not exist; use one of the user's folders")
  }

  /** Folder `i` is the first whose name is `archive` in some letter case. */
  predicate IsArchiveAt(folders: seq<string>, i: int) {
    && 0 <= i < |folders| && Like.SameText(folders[i], "archive")
    && forall j :: 0 <= j < i ==> !Like.SameText(folders[j], "archive")
  }

  function ArchiveFolder(folders: seq<string>): (f: Option<string>)
    ensures f.Some? ==> exists i :: IsArchiveAt(folders, i) && f.value == folders[i]
    ensures f.None? ==> forall i :: 0 <= i < |folders| ==> !Like.SameText(folders[i], "archive")
  {
    if folders == [] then None
    else if Like.SameText(folders[0], "archive") then Some(folders[0])
    else
      assert forall i :: IsArchiveAt(folders[1..], i) ==> IsArchiveAt(folders, i + 1);
      ArchiveFolder(folders[1..])
  }

  /** Exactly one `@` with text before it and a dot behind it, and neither white space nor wildcards. */
  predicate IsExactAddress(a: string) {
    exists n :: 0 < n < |a| && IsExactAddressAt(a, n)
  }

  predicate IsExactAddressAt(a: string, n: nat)
    requires n < |a|
  {
    && a[n] == '@' && '@' !in a[..n] && '@' !in a[n + 1..] && '.' in a[n + 1..]
    && Plain(a)
  }

  /** Around the first `@`: text, then a domain with a dot and no second `@`. */
  lemma ExactAddressIff(local: string, domain: string)
    requires '@' !in local
    ensures !IsExactAddress(local)
    ensures IsExactAddress(local + "@" + domain) <==>
            && local != "" && '.' in domain && '@' !in domain
            && forall c :: c in local + "@" + domain ==> !Words.IsSpace(c) && c != '*' && c != '?' && c != '%'
  {
    hide Words.IsSpace;
    var a, n := local + "@" + domain, |local|;
    assert a[..n] == local && a[n + 1..] == domain && a[n] == '@';
    assert IsExactAddressAt(a, n) <==> '.' in domain && '@' !in domain && Plain(a);
    hide IsExactAddressAt;
    if k :| 0 < k < |a| && IsExactAddressAt(a, k) {
      OnlyAt(a, k, n);
    }
    PlainIff(a);
  }

  lemma PlainIff(a: string)
    ensures Plain(a) <==> forall c :: c in a ==> !Words.IsSpace(c) && c != '*' && c != '?' && c != '%'
  {
    hide Words.IsSpace;
    forall c | Plain(a) && c in a ensures !Words.IsSpace(c) && c != '*' && c != '?' && c != '%' {
      var i :| 0 <= i < |a| && a[i] == c;
      assert "*?%"[0] in "*?%" && "*?%"[1] in "*?%" && "*?%"[2] in "*?%";
    }
    assert forall i :: 0 <= i < |a| ==> a[i] in a;
  }

  /** No white space and no wildcards. */
  predicate Plain(a: string) {
    forall i :: 0 <= i < |a| ==> !Words.IsSpace(a[i]) && a[i] !in "*?%"
  }

  lemma OnlyAt(a: string, k: nat, n: nat)
    requires k < |a| && n < |a| && a[n] == '@' && IsExactAddressAt(a, k)
    ensures k == n
  {
    hide Words.IsSpace;
    forall i | 0 <= i < |a| && i != k ensures a[i] != '@' {
      if i < k {
        assert a[i] == a[..k][i];
      } else {
        assert a[i] == a[k + 1..][i - k - 1];
      }
    }
  }

  function ExactAddress(lower: string -> string, raw: string): Result<string, string> {
    var a := lower(Words.Trim(raw));
    if IsExactAddress(a) then Ok(a) else Err("\"" + raw + "\" is not one exact sender address")
  }

  /** Turn a model's proposal into something the UI may show. */
  function ValidateAction(
    lower: string -> string, args: ActionArgs, messages: seq<ActionMessage>, folders: seq<string>):
    Result<ActionProposal, string>
  {
    var kind := KindOf(args.kind);
    if kind.None? then Err("\"" + args.kind + "\" is not an action; use move, archive, mark_read or create_filter")
    else if |messages| > MAX_ACTION_MESSAGES then Err("at most 50 emails per action")
    else if kind.value != CreateFilter && messages == [] then Err("name at least one email by its ref")
    else
      match kind.value
      case Move => (
        match ExistingFolder(folders, OrEmpty(args.folder))
        case Err(e) => Err(e)
        case Ok(f) => Ok(ActionProposal(Move, "Move " + Emails(|messages|) + " to " + f, messages, Some(f), None)))
      case Archive => (
        match ArchiveFolder(folders)
        case None => Err("this mailbox has no Archive folder")
        case Some(f) => Ok(ActionProposal(Archive, "Archive " + Emails(|messages|), messages, Some(f), None)))
      case MarkRead =>
        Ok(ActionProposal(MarkRead, "Mark " + Emails(|messages|) + " as read", messages, None, None))
      case CreateFilter => (
        match ExactAddress(lower, OrEmpty(args.sender))
        case Err(e) => Err(e)
        case Ok(sender) =>
          match ExistingFolder(folders, OrEmpty(args.folder))
          case Err(e) => Err(e)
          case Ok(f) => Ok(ActionProposal(CreateFilter, "File future mail from " + sender + " into " + f,
                                          messages, None, Some(FilterSpec(sender, f)))))
  }

  /** The folders an action would put mail into exist, and a filter names one sender. */
  predicate Executable(p: ActionProposal, folders: seq<string>) {
    && (p.folder.Some? ==> p.folder.value in folders)
    && (p.filter.Some? ==> p.filter.value.folder in folders && IsExactAddress(p.filter.value.sender))
    && (p.folder.Some? <==> p.kind.Move? || p.kind.Archive?)
    && (p.filter.Some? <==> p.kind.CreateFilter?)
  }

  // ----- What a proposal may be -----

  predicate IsSummary(s: string, before: string, n: nat, behind: string) {
    s == before + (if n == 1 then "1 email" else Numerals.Decimal(n) + " emails") + behind
  }

  /** The name given, or the empty one. */
  predicate IsGiven(name: Option<string>, given: string) {
    name == Some(given) || (name == None && given == "")
  }

  /** The folder asked for is one of the user's. */
  predicate IsExisting(folders: seq<string>, name: Option<string>, folder: string) {
    IsGiven(name, folder) && exists i :: 0 <= i < |folders| && folders[i] == folder
  }

  /** The sender asked for, trimmed and lower-cased, is one exact address. */
  ghost predicate IsSender(lower: string -> string, name: Option<string>, sender: string) {
    exists raw :: IsGiven(name, raw) && sender == lower(Words.Trim(raw)) && IsExactAddress(sender)
  }

  /** `p` is the action that was asked for, and it can be carried out. */
  ghost predicate AsAsked(
    lower: string -> string, args: ActionArgs, messages: seq<ActionMessage>, folders: seq<string>, p: ActionProposal)
  {
    && p.messages == messages && |messages| <= 50
    && match p.kind
       case Move =>
         && args.kind == "move" && messages != [] && p.filter == None
         && p.folder.Some? && IsExisting(folders, args.folder, p.folder.value)
         && IsSummary(p.summary, "Move ", |messages|, " to " + p.folder.value)
       case Archive =>
         && args.kind == "archive" && messages != [] && p.filter == None
         && p.folder.Some? && (exists i :: IsArchiveAt(folders, i) && p.folder.value == folders[i])
         && IsSummary(p.summary, "Archive ", |messages|, "")
       case MarkRead =>
         && args.kind == "mark_read" && messages != [] && p.filter == None && p.folder == None
         && IsSummary(p.summary, "Mark ", |messages|, " as read")
       case CreateFilter =>
         && args.kind == "create_filter" && p.folder == None
         && p.filter.Some? && IsExisting(folders, args.folder, p.filter.value.folder)
         && IsSender(lower, args.sender, p.filter.value.sender)
         && p.summary == "File future mail from " + p.filter.value.sender + " into " + p.filter.value.folder
  }

  lemma FolderIsExisting(folders: seq<string>, name: Option<string>, folder: string)
    ensures ExistingFolder(folders, OrEmpty(name)) == Ok(folder) <==> IsExisting(folders, name, folder)
  {
  }

  lemma SenderIsExact(lower: string -> string, name: Option<string>, sender: string)
    ensures ExactAddress(lower, OrEmpty(name)) == Ok(sender) <==> IsSender(lower, name, sender)
  {
    hide IsExactAddress, Words.Trim;
    if ExactAddress(lower, OrEmpty(name)) == Ok(sender) {
      assert IsGiven(name, OrEmpty(name));
    }
  }

  lemma FirstIsUnique(folders: seq<string>, i: int, j: int)
    requires IsArchiveAt(folders, i) && IsArchiveAt(folders, j)
    ensures i == j
  {
    hide Like.SameText;
  }

  lemma OneArchiveFolder(folders: seq<string>, folder: string)
    ensures ArchiveFolder(folders) == Some(folder) <==> exists i :: IsArchiveAt(folders, i) && folder == folders[i]
  {
    forall i, j | IsArchiveAt(folders, i) && IsArchiveAt(folders, j) ensures i == j {
      FirstIsUnique(folders, i, j);
    }
  }

  /** What the steps of the check and the parts of `AsAsked` have to do with each other. */
  lemma FieldsAsAsked(
    lower: string -> string, args: ActionArgs, messages: seq<ActionMessage>, folders: seq<string>, p: ActionProposal)
    ensures p.folder.Some? ==>
              var f := p.folder.value;
              && (ExistingFolder(folders, OrEmpty(args.folder)) == Ok(f) <==> IsExisting(folders, args.folder, f))
              && (ArchiveFolder(folders) == Some(f) <==> exists i :: IsArchiveAt(folders, i) && f == folders[i])
              && (IsSummary(p.summary, "Move ", |messages|, " to " + f) <==>
                  p.summary == "Move " + Emails(|messages|) + " to " + f)
    ensures p.filter.Some? ==>
              var f := p.filter.value;
              && (ExistingFolder(folders, OrEmpty(args.folder)) == Ok(f.folder) <==>
                  IsExisting(folders, args.folder, f.folder))
              && (ExactAddress(lower, OrEmpty(args.sender)) == Ok(f.sender) <==> IsSender(lower, args.sender, f.sender))
    ensures IsSummary(p.summary, "Archive ", |messages|, "") <==> p.summary == "Archive " + Emails(|messages|)
    ensures IsSummary(p.summary, "Mark ", |messages|, " as read") <==>
            p.summary == "Mark " + Emails(|messages|) + " as read"
  {
    hide ExistingFolder, ExactAddress, ArchiveFolder, IsExisting, IsSender, IsArchiveAt, Emails, IsSummary;
    if p.folder.Some? {
      FolderIsExisting(folders, args.folder, p.folder.value);
      OneArchiveFolder(folders, p.folder.value);
    }
    if p.filter.Some? {
      FolderIsExisting(folders, args.folder, p.filter.value.folder);
      SenderIsExact(lower, args.sender, p.filter.value.sender);
    }
    SummaryIs(p.summary, "Move ", |messages|, " to ", OrEmpty(p.folder));
    SummaryIs(p.summary, "Archive ", |messages|, "", "");
    SummaryIs(p.summary, "Mark ", |messages|, " as read", "");
  }

  lemma ProposedIsAsAsked(
    lower: string -> string, args: ActionArgs, messages: seq<ActionMessage>, folders: seq<string>, p: ActionProposal)
    requires ValidateAction(lower, args, messages, folders) == Ok(p)
    ensures AsAsked(lower, args, messages, folders, p)
  {
    hide ExistingFolder, ExactAddress, ArchiveFolder, IsExisting, IsSender, IsArchiveAt, Emails, IsSummary;
    FieldsAsAsked(lower, args, messages, folders, p);
  }

  lemma AsAskedIsProposed(
    lower: string -> string, args: ActionArgs, messages: seq<ActionMessage>, folders: seq<string>, p: ActionProposal)
    requires AsAsked(lower, args, messages, folders, p)
    ensures ValidateAction(lower, args, messages, folders) == Ok(p)
  {
    hide ExistingFolder, ExactAddress, ArchiveFolder, IsExisting, IsSender, IsArchiveAt, Emails, IsSummary, OrEmpty;
    FieldsAsAsked(lower, args, messages, folders, p);
    assert p == ActionProposal(p.kind, p.summary, p.messages, p.folder, p.filter);
    match p.kind
    case Move => assert p.folder == Some(p.folder.value);
    case Archive => assert p.folder == Some(p.folder.value);
    case MarkRead =>
    case CreateFilter => assert p.filter == Some(FilterSpec(p.filter.value.sender, p.filter.value.folder));
  }

  /** Exactly the action asked for is proposed: its kind, folder, sender and messages, or nothing at all. */
  lemma ProposesWhatWasAsked(
    lower: string -> string, args: ActionArgs, messages: seq<ActionMessage>, folders: seq<string>, p: ActionProposal)
    ensures ValidateAction(lower, args, messages, folders) == Ok(p) <==> AsAsked(lower, args, messages, folders, p)
  {
    hide ValidateAction, AsAsked;
    if AsAsked(lower, args, messages, folders, p) {
      AsAskedIsProposed(lower, args, messages, folders, p);
    }
    if ValidateAction(lower, args, messages, folders) == Ok(p) {
      ProposedIsAsAsked(lower, args, messages, folders, p);
    }
  }

  lemma SummaryIs(s: string, before: string, n: nat, behind: string, name: string)
    ensures IsSummary(s, before, n, behind + name) <==> s == before + Emails(n) + behind + name
    ensures IsSummary(s, before, n, behind) <==> s == before + Emails(n) + behind
    ensures before + Emails(n) + "" == before + Emails(n)
  {
    hide Numerals.Decimal;
    assert before + Emails(n) + (behind + name) == before + Emails(n) + behind + name;
  }

  /** A proposal carries exactly the messages it was given, at most 50 of them, and can be carried out. */
  lemma ValidatedIsExecutable(
    lower: string -> string, args: ActionArgs, messages: seq<ActionMessage>, folders: seq<string>)
    ensures var p := ValidateAction(lower, args, messages, folders);
            p.Ok? ==>
              && Executable(p.value, folders)
              && p.value.messages == messages && |messages| <= 50
              && KindOf(args.kind) == Some(p.value.kind)
              && (messages == [] ==> p.value.kind.CreateFilter?)
  {
  }
}
