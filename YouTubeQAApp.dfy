/** The top-level component (extension/src/components/YouTubeQAApp.jsx): the two
    mode flags `isChatOpen` and `isSearchMode`, the window's keyboard shortcuts, the
    chat log that questions and answers are appended to, and the canned replies of the
    demo mode shown outside YouTube. */
module YouTubeQAApp {
  import opened Strings
  import opened SearchText
  import opened SearchDom
  import opened UseSearch
  import opened SearchOverlay
  import ChatSidebar

  // ---------------------------------------------------------------------------
  // Keyboard shortcuts (YouTubeQAApp.jsx:36-60)

  /** The two overlay flags. */
  datatype Modes = Modes(chatOpen: bool, searchMode: bool)

  /** The "Ctrl/Cmd + F" test as written at YouTubeQAApp.jsx:38: `e.key` has to equal
      both "shift" and "f". */
  predicate ShortcutAsWritten(e: KeyEvent)
  {
    (e.ctrlKey || e.metaKey) && e.key == "shift" && e.key == "f"
  }

  /** The test the comment above it describes: Ctrl or Cmd together with F. */
  predicate ShortcutIntended(e: KeyEvent)
  {
    (e.ctrlKey || e.metaKey) && e.key == "f"
  }

  /** The flags after one key press, given whether the search shortcut fired: the
      shortcut turns search mode on, then Escape turns both overlays off. */
  function ModesAfterKey(e: KeyEvent, m: Modes, shortcut: bool): (r: Modes)
    ensures e.key == "Escape" ==> !r.chatOpen && !r.searchMode
    ensures e.key != "Escape" ==> r.chatOpen == m.chatOpen
    ensures e.key != "Escape" ==> (r.searchMode <==> m.searchMode || shortcut)
  {
    var m' := if shortcut then m.(searchMode := true) else m;
    if e.key == "Escape" then Modes(false, false) else m'
  }

  /** As written, no key press ever turns search mode on: the flags never gain
      `searchMode`. */
  lemma ShortcutNeverFires(e: KeyEvent, m: Modes)
    ensures !ShortcutAsWritten(e)
    ensures ModesAfterKey(e, m, ShortcutAsWritten(e)).searchMode ==> m.searchMode
  {
  }

  /** Ctrl+F from closed overlays leaves search mode off as written. */
  lemma CtrlFIgnoredAsWritten()
    ensures var e := KeyEvent("f", false, true, false);
      ModesAfterKey(e, Modes(false, false), ShortcutAsWritten(e)) == Modes(false, false)
  {
  }

  /** With the intended test, Ctrl/Cmd+F opens search mode and keeps the chat flag. */
  lemma ShortcutIntendedOpensSearch(e: KeyEvent, m: Modes)
    requires e.key == "f" && (e.ctrlKey || e.metaKey)
    ensures ShortcutIntended(e)
    ensures ModesAfterKey(e, m, ShortcutIntended(e)) == m.(searchMode := true)
  {
  }

  /** The navigation part of the window handler (YouTubeQAApp.jsx:51-59): Enter and
      Shift+Enter move between results only in search mode with at least one result,
      and then dispatch like the overlay's own input handler. */
  function WindowNav(e: KeyEvent, searchMode: bool, n: nat): (c: NavCall)
    ensures c == CallNext <==> searchMode && n > 0 && e.key == "Enter" && !e.shiftKey
    ensures c == CallPrev <==> searchMode && n > 0 && e.key == "Enter" && e.shiftKey
    ensures c != NoCall ==> c == OverlayKeyDown(e)
  {
    if searchMode && n > 0 then OverlayKeyDown(e) else NoCall
  }

  /** The floating button's condition (YouTubeQAApp.jsx:252-253). */
  predicate ShowChatButton(isOnYouTube: bool, isDevelopment: bool, isChatOpen: bool)
  {
    (isOnYouTube && !isChatOpen) || (isDevelopment && !isOnYouTube && !isChatOpen)
  }

  /** The button shows exactly when the chat is closed and the sidebar could be used. */
  lemma ShowChatButtonIsCanInteract(isOnYouTube: bool, hostname: string, isChatOpen: bool)
    ensures ShowChatButton(isOnYouTube, ChatSidebar.IsDevelopment(hostname), isChatOpen)
      <==> !isChatOpen && ChatSidebar.CanInteract(isOnYouTube, hostname)
  {
  }

  // ---------------------------------------------------------------------------
  // Demo replies (YouTubeQAApp.jsx:78-92)

  /** Which canned reply a demo question gets. */
  datatype DemoTopic = HowItWorks | Features | SearchHelp | General

  /** The keyword chain on the lowercased question: "how" with "work", else
      "feature", else "search", else the general reply. */
  function DemoTopicOf(question: string): (t: DemoTopic)
    ensures var low := Lower(question);
      var how := Includes(low, "how") && Includes(low, "work");
      && (t == HowItWorks <==> how)
      && (t == Features <==> !how && Includes(low, "feature"))
      && (t == SearchHelp <==> !how && !Includes(low, "feature") && Includes(low, "search"))
      && (t == General <==> !how && !Includes(low, "feature") && !Includes(low, "search"))
  {
    var low := Lower(question);
    if Includes(low, "how") && Includes(low, "work") then HowItWorks
    else if Includes(low, "feature") then Features
    else if Includes(low, "search") then SearchHelp
    else General
  }

  /** The choice ignores case: a question and its lowercase form get the same reply. */
  lemma DemoTopicIgnoresCase(question: string)
    ensures DemoTopicOf(Lower(question)) == DemoTopicOf(question)
  {
    LowerIdempotent(question);
  }

  /** The keyword tests look at the whole question: "how" and "work" anywhere in it,
      in any case, select the first reply. */
  lemma HowAndWorkAnywhere(question: string, i: nat, j: nat)
    requires i + 3 <= |question| && Lower(question[i..i + 3]) == "how"
    requires j + 4 <= |question| && Lower(question[j..j + 4]) == "work"
    ensures DemoTopicOf(question) == HowItWorks
  {
    var low := Lower(question);
    LowerSlice(question, i, i + 3);
    LowerSlice(question, j, j + 4);
    assert InfixAt(low, "how", i);
    assert InfixAt(low, "work", j);
  }

  /** The reply texts, as in YouTubeQAApp.jsx:83, 86, 89 and 91. */
  const HowItWorksReply: string :=
    "This YouTube Q&A extension works by:\n" +
    "\n" +
    "1. **Floating Chat Button**: Appears " +
    "on YouTube video pages for easy access\n" +
    "2. **AI-Powered Q&A**: Ask questions " +
    "about video content and get intelligent " +
    "responses\n" +
    "3. **Enhanced Search**: Use Ctrl+F/Cmd+F " +
    "for powerful text search with highlighting\n" +
    "4. **Real-time Analysis**: Extracts " +
    "video transcripts and metadata for accurate " +
    "answers\n" +
    "\n" +
    "The extension integrates seamlessly " +
    "with YouTube without disrupting your " +
    "viewing experience!"

  const FeaturesReply: string :=
    "Key features include:\n" +
    "\n" +
    "\U{2728} **Smart Q&A**: Ask questions about " +
    "video content\n" +
    "\U{1F50D} **Enhanced Search**: Advanced Ctrl+F " +
    "functionality with result navigation\n" +
    "\U{1F4AC} **Floating Chat**: Non-intrusive chat " +
    "interface\n" +
    "\U{1F4CA} **Video Analysis**: Automatic transcript " +
    "and metadata extraction\n" +
    "\U{26A1} **Real-time**: Instant responses and " +
    "search results\n" +
    "\U{1F3A8} **Beautiful UI**: Modern, responsive " +
    "design with smooth animations"

  const SearchReply: string :=
    "The search functionality enhances the " +
    "browser's native Ctrl+F:\n" +
    "\n" +
    "\U{1F50D} **Enhanced Highlighting**: Better " +
    "visual indicators for search results\n" +
    "\U{2B06}\U{FE0F}\U{2B07}\U{FE0F} **Easy Navigation**: Use Enter/Shift+En" +
    "ter to jump between results\n" +
    "\U{1F4CA} **Result Counter**: See how many matches " +
    "were found\n" +
    "\U{1F3AF} **Smart Scrolling**: Automatically " +
    "centers results in view\n" +
    "\U{2728} **Smooth Animation**: Beautiful transition" +
    "s and highlighting effects\n" +
    "\n" +
    "Try pressing Ctrl+F (or Cmd+F on Mac) " +
    "to see it in action!"

  const GeneralReply: string :=
    "Thanks for asking! This is a demo of " +
    "the YouTube Q&A assistant. In a real " +
    "YouTube video, I would:\n" +
    "\n" +
    "\U{2022} Analyze the video's transcript and " +
    "content\n" +
    "\U{2022} Provide specific answers about the " +
    "video topics\n" +
    "\U{2022} Help you find particular moments or " +
    "information\n" +
    "\U{2022} Search through the video content efficient" +
    "ly\n" +
    "\n" +
    "To see the full functionality, try this " +
    "extension on an actual YouTube video " +
    "page!"

  function ReplyText(t: DemoTopic): string
  {
    match t
    case HowItWorks => HowItWorksReply
    case Features => FeaturesReply
    case SearchHelp => SearchReply
    case General => GeneralReply
  }

  function DemoReply(question: string): string
  {
    ReplyText(DemoTopicOf(question))
  }

  // ---------------------------------------------------------------------------
  // The component's state

  datatype Sender = User | Ai

  /** `{ type: "user" | "ai", content }`. */
  datatype Message = Message(sender: Sender, content: string)

  const NavigateText: string := "Please navigate to a YouTube video to ask questions about it."
  const ErrorText: string :=
    "Sorry, I encountered an error while processing your question. Please try again."

  class App {
    var isChatOpen: bool
    var isSearchMode: bool
    var messages: seq<Message>
    var isLoading: bool
    /** The questions whose demo reply timer is pending, oldest first. */
    var demoQueue: seq<string>
    /** The `useSearch` instance. */
    const search: SearchHook

    predicate Valid()
      reads this, search
    {
      search.Valid()
    }

    /** The initial state (YouTubeQAApp.jsx:11-24) over a page. */
    constructor (page: seq<TextNode>, cl: Classes, fresh0: nat)
      requires DistinctIds(page) && IdsBelow(page, fresh0)
      ensures Valid() && fresh(search)
      ensures !isChatOpen && !isSearchMode && messages == [] && !isLoading && demoQueue == []
      ensures search.body == page && search.searchResults == [] && search.searchTerm == ""
    {
      isChatOpen := false;
      isSearchMode := false;
      messages := [];
      isLoading := false;
      demoQueue := [];
      search := new SearchHook(page, cl, fresh0);
    }

    /** The window's `handleKeyDown` (YouTubeQAApp.jsx:36-60).  Search mode and the
        number of results are read as they were when the handler was installed, that
        is before this key press. */
    method HandleKeyDown(e: KeyEvent)
      requires Valid()
      modifies this`isChatOpen, this`isSearchMode, search
      ensures Valid()
      ensures Modes(isChatOpen, isSearchMode)
        == ModesAfterKey(e, old(Modes(isChatOpen, isSearchMode)), ShortcutAsWritten(e))
      ensures e.key == "Escape" ==>
        && search.body == old(search.body) && search.searchResults == [] && search.originalNodes == []
        && search.currentIndex == 0 && search.searchTerm == ""
        && search.classes == old(search.classes) && search.nextId == old(search.nextId)
        && search.pending == (if old(search.searchTerm) == "" then old(search.pending) else Some(""))
      ensures var n := old(|search.searchResults|);
        var nav := WindowNav(e, old(isSearchMode), n);
        && (nav == CallNext ==> search.currentIndex == NextIndex(old(search.currentIndex), n))
        && (nav == CallPrev ==> search.currentIndex == PrevIndex(old(search.currentIndex), n))
        && (nav != NoCall ==>
              && search.body == old(search.body) && search.searchResults == old(search.searchResults)
              && search.originalNodes == old(search.originalNodes) && search.searchTerm == old(search.searchTerm)
              && search.pending == old(search.pending)
              && CurrentIds(search.classes) == {search.searchResults[search.currentIndex].element.id})
        && (nav == NoCall && e.key != "Escape" ==> unchanged(search))
    {
      var mode, n := isSearchMode, |search.searchResults|;
      isSearchMode := if ShortcutAsWritten(e) then true else isSearchMode;
      if e.key == "Escape" {
        isSearchMode := false;
        isChatOpen := false;
        search.ClearSearch();
      }
      if mode && n > 0 {
        if e.key == "Enter" && !e.shiftKey {
          search.NextResult();
        } else if e.key == "Enter" && e.shiftKey {
          search.PrevResult();
        }
      }
    }

    /** `toggleChat` (YouTubeQAApp.jsx:133-139): flips the chat; leaving search mode
        clears the search. */
    method ToggleChat()
      requires Valid()
      modifies this`isChatOpen, this`isSearchMode, search
      ensures Valid()
      ensures isChatOpen == !old(isChatOpen) && !isSearchMode
      ensures old(isSearchMode) ==>
        && search.body == old(search.body) && search.searchResults == [] && search.originalNodes == []
        && search.currentIndex == 0 && search.searchTerm == ""
        && search.classes == old(search.classes) && search.nextId == old(search.nextId)
        && search.pending == (if old(search.searchTerm) == "" then old(search.pending) else Some(""))
      ensures !old(isSearchMode) ==> unchanged(search)
    {
      isChatOpen := !isChatOpen;
      if isSearchMode {
        isSearchMode := false;
        search.ClearSearch();
      }
    }

    /** The overlay's `onClose` (YouTubeQAApp.jsx:223-226). */
    method CloseOverlay()
      requires Valid()
      modifies this`isSearchMode, search
      ensures Valid()
      ensures !isSearchMode
      ensures search.body == old(search.body) && search.searchResults == [] && search.originalNodes == []
      ensures search.currentIndex == 0 && search.searchTerm == ""
      ensures search.classes == old(search.classes) && search.nextId == old(search.nextId)
      ensures search.pending == if old(search.searchTerm) == "" then old(search.pending) else Some("")
    {
      isSearchMode := false;
      search.ClearSearch();
    }

    /** The sidebar's `onSearchMode` (YouTubeQAApp.jsx:243-246): search opens, chat
        closes. */
    method OpenSearchMode()
      modifies this`isChatOpen, this`isSearchMode
      ensures isSearchMode && !isChatOpen
    {
      isSearchMode := true;
      isChatOpen := false;
    }

    /** The sidebar's `onClose` (YouTubeQAApp.jsx:242). */
    method CloseSidebar()
      modifies this`isChatOpen
      ensures !isChatOpen
    {
      isChatOpen := false;
    }

    /** The landing page's "Try Demo Chat" button (YouTubeQAApp.jsx:205). */
    method OpenDemoChat()
      modifies this`isChatOpen
      ensures isChatOpen
    {
      isChatOpen := true;
    }

    /** `setMessages((prev) => [...prev, m])`. */
    method Append(m: Message)
      modifies this`messages
      ensures messages == old(messages) + [m]
    {
      messages := messages + [m];
    }

    /** `handleAskQuestion` (YouTubeQAApp.jsx:66-131).  `videoUrl` is `videoData?.url`,
        with "" standing for a missing one; `reply` is what `askQuestion` resolves to,
        `None` when it throws.  In demo mode the reply is deferred to `DemoTimerFires`. */
    method HandleAskQuestion(question: string, hostname: string, isOnYouTube: bool,
                             videoUrl: string, reply: Option<string>)
      modifies this`messages, this`isLoading, this`demoQueue
      ensures old(messages) <= messages
      ensures ChatSidebar.IsDevelopment(hostname) && !isOnYouTube ==>
        && messages == old(messages) + [Message(User, question)]
        && isLoading && demoQueue == old(demoQueue) + [question]
      ensures !(ChatSidebar.IsDevelopment(hostname) && !isOnYouTube) && videoUrl == "" ==>
        && messages == old(messages) + [Message(User, question), Message(Ai, NavigateText)]
        && isLoading == old(isLoading) && demoQueue == old(demoQueue)
      ensures !(ChatSidebar.IsDevelopment(hostname) && !isOnYouTube) && videoUrl != "" ==>
        && messages == old(messages) + [Message(User, question),
                                         Message(Ai, if reply.Some? then reply.value else ErrorText)]
        && !isLoading && demoQueue == old(demoQueue)
    {
      var isDevelopment := hostname == "localhost" || hostname == "127.0.0.1";
      if isDevelopment && !isOnYouTube {
        Append(Message(User, question));
        isLoading := true;
        demoQueue := demoQueue + [question];
        return;
      }
      if videoUrl == "" {
        messages := messages + [Message(User, question), Message(Ai, NavigateText)];
        return;
      }
      Append(Message(User, question));
      isLoading := true;
      match reply {
        case Some(answer) =>
          Append(Message(Ai, answer));
        case None =>
          Append(Message(Ai, ErrorText));
      }
      isLoading := false;
    }

    /** The demo timer of YouTubeQAApp.jsx:77-96 firing for the oldest pending
        question: its canned reply is appended and loading ends. */
    method DemoTimerFires()
      requires demoQueue != []
      modifies this`messages, this`isLoading, this`demoQueue
      ensures messages == old(messages) + [Message(Ai, DemoReply(old(demoQueue)[0]))]
      ensures !isLoading && demoQueue == old(demoQueue)[1..]
    {
      var question := demoQueue[0];
      demoQueue := demoQueue[1..];
      Append(Message(Ai, DemoReply(question)));
      isLoading := false;
    }
  }
}
