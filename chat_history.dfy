/** The conversation history pager of `ChatHistory.jsx`: a page cursor moved
    by clamped previous/next steps, buttons that disable at the bounds, and
    the load that fetches one page of stored conversations. */
module ChatHistory {
  import opened Backend
  import ChatInterface

  /** The page size every history request asks for. */
  const PageSize := 10

  /** The preview shown for a conversation without questions. */
  const NoQuestion := "Sem mensagem"

  /** The previous button's update, `Math.max(0, p - 1)`: one page back, but
      never below the first page. */
  function PrevPage(page: int): (r: int)
    ensures r >= 0
    ensures page >= 1 ==> r == page - 1
    ensures page <= 1 ==> r == 0
  {
    if page - 1 > 0 then page - 1 else 0
  }

  /** The next button's update, `Math.min(totalPages - 1, p + 1)`: one page
      forward, but never past the last page. */
  function NextPage(page: int, totalPages: int): (r: int)
    ensures r <= totalPages - 1 && r <= page + 1
    ensures page + 1 <= totalPages - 1 ==> r == page + 1
    ensures page >= totalPages - 1 ==> r == totalPages - 1
  {
    if totalPages - 1 < page + 1 then totalPages - 1 else page + 1
  }

  /** The pager is shown only when there is more than one page. */
  predicate PagerShown(totalPages: int) {
    totalPages > 1
  }

  predicate PrevDisabled(page: int, loading: bool) {
    page == 0 || loading
  }

  predicate NextDisabled(page: int, totalPages: int, loading: bool) {
    page >= totalPages - 1 || loading
  }

  /** The previous button is disabled exactly when a load is running or a
      click would leave the page where it is. */
  lemma PrevDisabledIffStuck(page: int, loading: bool)
    requires page >= 0
    ensures PrevDisabled(page, loading) <==> loading || PrevPage(page) == page
  {
  }

  /** On a page in range, the next button is disabled exactly when a load is
      running or a click would leave the page where it is. */
  lemma NextDisabledIffStuck(page: int, totalPages: int, loading: bool)
    requires 0 <= page < totalPages
    ensures NextDisabled(page, totalPages, loading) <==> loading || NextPage(page, totalPages) == page
  {
  }

  /** An enabled next step is undone by a previous step. */
  lemma PrevUndoesNext(page: int, totalPages: int)
    requires page >= 0 && !NextDisabled(page, totalPages, false)
    ensures PrevPage(NextPage(page, totalPages)) == page
  {
  }

  /** An enabled previous step is undone by a next step. */
  lemma NextUndoesPrev(page: int, totalPages: int)
    requires 0 <= page < totalPages && !PrevDisabled(page, false)
    ensures NextPage(PrevPage(page), totalPages) == page
  {
  }

  datatype Click = Prev | Next

  /** The page reached from `page` by a sequence of clicks. */
  function Walk(page: int, totalPages: int, clicks: seq<Click>): int
    decreases |clicks|
  {
    if clicks == [] then page
    else
      var p := Walk(page, totalPages, clicks[..|clicks| - 1]);
      match clicks[|clicks| - 1]
      case Prev => PrevPage(p)
      case Next => NextPage(p, totalPages)
  }

  /** While the pager is shown, no sequence of clicks takes a page in range
      out of range. */
  lemma {:induction false} WalkStaysInRange(page: int, totalPages: int, clicks: seq<Click>)
    requires PagerShown(totalPages) && 0 <= page < totalPages
    ensures 0 <= Walk(page, totalPages, clicks) < totalPages
    decreases |clicks|
  {
    if clicks != [] {
      WalkStaysInRange(page, totalPages, clicks[..|clicks| - 1]);
    }
  }

  /** The indicator between the buttons, `page + 1 / totalPages`: on a page
      in range it reads from 1 up to the page count. */
  function PageIndicator(page: int, totalPages: int): (r: (int, int))
    ensures r.1 == totalPages && r.0 - 1 == page
    ensures 0 <= page < totalPages ==> 1 <= r.0 <= r.1
  {
    (page + 1, totalPages)
  }

  /** The question shown for a stored conversation: its first question, or
      a placeholder when it has none. */
  function Preview(conversation: Conversation): (s: string)
    ensures conversation.messages.Some? && conversation.messages.value != [] ==>
      s == conversation.messages.value[0]
    ensures conversation.messages.None? || conversation.messages.value == [] ==> s == NoQuestion
  {
    if conversation.messages.Some? && |conversation.messages.value| > 0 then conversation.messages.value[0]
    else NoQuestion
  }

  /** The preview is the question the chat opens with once the conversation
      is loaded into it. */
  lemma PreviewOpensTranscript(conversation: Conversation)
    requires conversation.messages.Some? && conversation.messages.value != []
    requires conversation.responses.Some?
    ensures var t := ChatInterface.Transcript(conversation.messages.value, conversation.responses.value);
            t != [] && t[0] == ChatInterface.Message(ChatInterface.User, Preview(conversation))
  {
    ChatInterface.TranscriptOpensWithFirstQuestion(conversation.messages.value, conversation.responses.value);
  }

  /** The request `getHistory(page, size)`. */
  datatype HistoryRequest = HistoryRequest(page: int, size: int)

  class HistoryPager {
    var conversations: seq<Conversation>
    var page: int
    var totalPages: int
    var loading: bool

    /** The page is never negative. */
    ghost predicate Valid()
      reads this
    {
      page >= 0
    }

    constructor()
      ensures Valid()
      ensures conversations == [] && page == 0 && totalPages == 0 && !loading
    {
      conversations := [];
      page := 0;
      totalPages := 0;
      loading := false;
    }

    /** The start of `loadHistory` for the current page, run whenever the
        page changes: the list shows as loading and the page is requested
        with the fixed page size. */
    method BeginLoad() returns (request: HistoryRequest)
      modifies this`loading
      ensures loading
      ensures request == HistoryRequest(page, PageSize)
    {
      loading := true;
      request := HistoryRequest(page, PageSize);
    }

    /** The end of `loadHistory`: a response replaces the list and the page
        count, a failure (None) leaves both as they were; either way the load
        is over. */
    method CompleteLoad(response: Option<HistoryPage>)
      modifies this`conversations, this`totalPages, this`loading
      ensures !loading
      ensures response.Some? ==>
        conversations == response.value.content && totalPages == response.value.totalPages
      ensures response.None? ==>
        conversations == old(conversations) && totalPages == old(totalPages)
    {
      if response.Some? {
        conversations := response.value.content;
        totalPages := response.value.totalPages;
      }
      loading := false;
    }

    /** The previous button's click; the button is enabled only off the first
        page and while no load is running. */
    method ClickPrev()
      requires Valid() && !PrevDisabled(page, loading)
      modifies this`page
      ensures Valid()
      ensures page == PrevPage(old(page))
      ensures page == old(page) - 1
      ensures old(page) < totalPages ==> page < totalPages
    {
      page := PrevPage(page);
    }

    /** The next button's click; the button exists only while the pager is
        shown, and is enabled only before the last page and while no load is
        running. */
    method ClickNext()
      requires Valid() && PagerShown(totalPages) && !NextDisabled(page, totalPages, loading)
      modifies this`page
      ensures Valid()
      ensures page == NextPage(old(page), totalPages)
      ensures page == old(page) + 1
      ensures page < totalPages
    {
      page := NextPage(page, totalPages);
    }
  }
}
