/** The error panel (`src/ui/components/system/ErrorState.tsx`): how an
    error's message is sorted into one of five kinds, and the title, text
    and colour shown for each. The icon is rendering and is left out. */
module ErrorState {
  import opened Text

  datatype Kind = NotFound | Network | Database | Permission | Unknown

  /** What the panel shows: the kind decides the title and colour. */
  datatype ErrorInfo = ErrorInfo(kind: Kind, title: string, description: string, color: string)

  const NotFoundWords: seq<string> := ["not_found", "404"]
  const NetworkWords: seq<string> := ["network", "fetch"]
  const DatabaseWords: seq<string> := ["database", "sql"]
  const PermissionWords: seq<string> := ["permission", "denied"]

  const UnknownTitle: string := "Something went wrong"
  const UnexpectedText: string := "An unexpected error occurred."

  /** Whether the (lowercased) message includes one of the words. */
  predicate Mentions(message: string, words: seq<string>) {
    exists k :: 0 <= k < |words| && Contains(message, words[k])
  }

  lemma MentionsEither(message: string, words: seq<string>)
    requires |words| == 2
    ensures Mentions(message, words) <==> Contains(message, words[0]) || Contains(message, words[1])
  {
    if Contains(message, words[1]) {
      assert 0 <= 1 < |words| && Contains(message, words[1]);
    }
  }

  /** The kind `getErrorInfo` picks: the rules are tried in order on the
      lowercased message, and the first whose words occur wins. */
  function Classify(message: string): (r: Kind)
    ensures r == NotFound <==> Mentions(Lower(message), NotFoundWords)
    ensures r == Network <==> !Mentions(Lower(message), NotFoundWords) && Mentions(Lower(message), NetworkWords)
    ensures r == Database <==>
              && !Mentions(Lower(message), NotFoundWords) && !Mentions(Lower(message), NetworkWords)
              && Mentions(Lower(message), DatabaseWords)
    ensures r == Permission <==>
              && !Mentions(Lower(message), NotFoundWords) && !Mentions(Lower(message), NetworkWords)
              && !Mentions(Lower(message), DatabaseWords) && Mentions(Lower(message), PermissionWords)
  {
    var m := Lower(message);
    MentionsEither(m, NotFoundWords);
    MentionsEither(m, NetworkWords);
    MentionsEither(m, DatabaseWords);
    MentionsEither(m, PermissionWords);
    if Contains(m, "not_found") || Contains(m, "404") then NotFound
    else if Contains(m, "network") || Contains(m, "fetch") then Network
    else if Contains(m, "database") || Contains(m, "sql") then Database
    else if Contains(m, "permission") || Contains(m, "denied") then Permission
    else Unknown
  }

  /** `getErrorInfo`: the fixed title, text and colour of the kind; an
      unrecognised error shows its own message, or a stock sentence when
      the message is empty. Only "Not Found" is orange. */
  function Info(message: string): (r: ErrorInfo)
    ensures r.kind == Classify(message)
    ensures r.color == "orange" <==> r.kind == NotFound
    ensures r.color != "orange" ==> r.color == "red"
    ensures r.kind == Unknown ==> r.title == UnknownTitle
    ensures r.kind == Unknown && message != "" ==> r.description == message
    ensures r.kind == Unknown && message == "" ==> r.description == UnexpectedText
    ensures r.kind != Unknown ==> r.title != UnknownTitle
  {
    match Classify(message)
    case NotFound => ErrorInfo(NotFound, "Not Found", "The resource you're looking for doesn't exist.", "orange")
    case Network => ErrorInfo(Network, "Network Error", "Unable to connect. Please check your internet connection.", "red")
    case Database => ErrorInfo(Database, "Database Error", "There was a problem accessing the database.", "red")
    case Permission => ErrorInfo(Permission, "Permission Denied", "You don't have permission to perform this action.", "red")
    case Unknown => ErrorInfo(Unknown, UnknownTitle, if message == "" then UnexpectedText else message, "red")
  }

  /** In development the raw message is shown under the text when it
      differs from it. */
  predicate ShowsRawMessage(message: string) {
    message != Info(message).description
  }

  /** An unrecognised, non-empty message is the text itself, so it is never
      shown twice; every recognised kind shows the raw message beside its
      stock text unless the message is that text. */
  lemma UnknownShowsNoRawMessage(message: string)
    ensures Classify(message) == Unknown ==> (ShowsRawMessage(message) <==> message == "")
  {
  }

  /** The classification ignores the case of ASCII letters. */
  lemma ClassifyIgnoresCase(message: string)
    ensures Classify(Upper(message)) == Classify(message)
    ensures Classify(Lower(message)) == Classify(message)
  {
    LowerUpper(message);
    LowerLower(message);
  }

  lemma LowerUpper(s: string)
    ensures Lower(Upper(s)) == Lower(s)
  {
    assert forall i :: 0 <= i < |s| ==> Lower(Upper(s))[i] == Lower(s)[i];
  }

  lemma LowerLower(s: string)
    ensures Lower(Lower(s)) == Lower(s)
  {
    assert forall i :: 0 <= i < |s| ==> Lower(Lower(s))[i] == Lower(s)[i];
  }

  /** More text never demotes an error to a later rule: a message that is
      recognised keeps a kind at least as early when anything is appended. */
  lemma AppendKeepsEarlierRule(message: string, more: string)
    ensures Classify(message) == NotFound ==> Classify(message + more) == NotFound
    ensures Classify(message) != Unknown ==> Classify(message + more) != Unknown
  {
    LowerAppend(message, more);
    forall sub | Contains(Lower(message), sub) ensures Contains(Lower(message + more), sub) {
      var i :| 0 <= i <= |Lower(message)| && OccursAt(Lower(message), sub, i);
      OccursAtAppend(Lower(message), Lower(more), sub, i);
    }
  }

  lemma LowerAppend(a: string, b: string)
    ensures Lower(a + b) == Lower(a) + Lower(b)
  {
    assert forall i :: 0 <= i < |a + b| ==> Lower(a + b)[i] == (Lower(a) + Lower(b))[i];
  }

  lemma OccursAtAppend(a: string, b: string, sub: string, i: nat)
    requires i <= |a| && OccursAt(a, sub, i)
    ensures OccursAt(a + b, sub, i)
  {
    assert (a + b)[i..i + |sub|] == a[i..i + |sub|];
  }
}
