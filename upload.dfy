/**
  The bottom navigation bar (components/ui/bottom-navbar.tsx): the upload
  handler behind the hidden file input, with its two client-side checks and
  the `isUploading` flag, and the three navigation entries it renders.

  The request to the receipt-analysis endpoint is not made here: its outcome
  is the parameter `reply`. Toast notifications and the router are recorded
  as state (`toasts`, `pathname`) rather than performed.
*/
module Upload {
  import opened Wrappers

  /** The first file of the input's file list: its MIME type and size in bytes. */
  datatype File = File(mimeType: string, size: nat)

  /** The MIME types the handler accepts. */
  const ValidTypes: seq<string> := ["image/jpeg", "image/jpg", "image/png", "image/webp"]

  /** The largest accepted size, 10 MiB. */
  const MaxSize: nat := 10 * 1024 * 1024

  const InvalidTypeMessage: string := "Invalid file type. Please upload a JPEG, PNG, or WebP image."
  const TooLargeMessage: string := "File too large. Maximum size is 10MB."
  const LoadingMessage: string := "Analyzing receipt..."
  const FallbackMessage: string := "Failed to analyze receipt"
  const ReceiptsPath: string := "/receipts"

  /** The outcome of the checks made before any request. */
  datatype Screening = NoFile | InvalidType | TooLarge | Accepted(file: File)

  /**
    The early returns of handleImageUpload: no file, then the type check,
    then the size check.
  */
  function Screen(files: seq<File>): (s: Screening)
    ensures s.NoFile? <==> files == []
    ensures s.InvalidType? <==> files != [] && files[0].mimeType !in ValidTypes
    ensures s.TooLarge? <==> files != [] && files[0].mimeType in ValidTypes && files[0].size > MaxSize
    ensures s.Accepted? ==> s.file == files[0] && s.file.mimeType in ValidTypes && s.file.size <= MaxSize
  {
    if files == [] then NoFile
    else if files[0].mimeType !in ValidTypes then InvalidType
    else if files[0].size > MaxSize then TooLarge
    else Accepted(files[0])
  }

  /** A file is accepted exactly when its type is allowed and it is at most 10 MiB. */
  lemma AcceptedExactly(files: seq<File>)
    ensures Screen(files).Accepted?
      <==> files != [] && files[0].mimeType in ValidTypes && files[0].size <= MaxSize
  {}

  /** The type is checked first: a file failing both checks is reported as of invalid type. */
  lemma TypeCheckedBeforeSize(f: File)
    requires f.mimeType !in ValidTypes
    ensures Screen([f]) == InvalidType
  {}

  /** Every file of an allowed type above 10 MiB is refused as too large. */
  lemma TooLargeAllSizes(f: File)
    requires f.mimeType in ValidTypes && f.size > MaxSize
    ensures Screen([f]) == TooLarge
  {}

  /** The size limit is inclusive: 10485760 bytes pass, one byte more does not. */
  lemma SizeLimitInclusive(mimeType: string)
    requires mimeType in ValidTypes
    ensures Screen([File(mimeType, 10485760)]).Accepted?
    ensures Screen([File(mimeType, 10485761)]) == TooLarge
  {}

  /**
    What the request produced. `Analyzed` is an ok response whose
    `analysis.expenses` has the given length; `Refused` a response that is
    not ok, with the body's `error` field if it has one; `Threw` an Error
    thrown by `fetch` or by reading the body, with its message.

    An ok response whose body has no `analysis.expenses` throws when the
    success toast is built, after the loading toast was dismissed; the
    handler then dismisses it a second time. That case is a `Threw` here,
    with the loading toast dismissed once: dismissing an already dismissed
    toast shows nothing.
  */
  datatype Reply =
    | Analyzed(expenseCount: nat)
    | Refused(error: Option<string>)
    | Threw(message: string)

  /**
    The message of the error toast for a failed request: the server's
    `error` unless it is absent or empty (`data.error || ...`), and the
    thrown Error's own message otherwise.
  */
  function FailureMessage(reply: Reply): (m: string)
    requires !reply.Analyzed?
    ensures reply.Refused? && reply.error.Some? && reply.error.value != "" ==> m == reply.error.value
    ensures reply.Refused? && (reply.error.None? || reply.error.value == "") ==> m == FallbackMessage
    ensures reply.Threw? ==> m == reply.message
  {
    match reply
    case Refused(error) => if error.Some? && error.value != "" then error.value else FallbackMessage
    case Threw(message) => message
  }

  /** A toast notification; `Success(n)` is "Receipt analyzed! Found n expense(s)". */
  datatype Toast =
    | Loading(message: string)
    | Dismissed
    | Success(expenseCount: nat)
    | Failure(message: string)

  /** The toasts one call of the handler shows, in order. */
  function UploadToasts(s: Screening, reply: Reply): (ts: seq<Toast>)
    ensures s.NoFile? <==> ts == []
    ensures s.Accepted? <==> |ts| == 3
    ensures s.InvalidType? ==> ts == [Failure(InvalidTypeMessage)]
    ensures s.TooLarge? ==> ts == [Failure(TooLargeMessage)]
  {
    match s
    case NoFile => []
    case InvalidType => [Failure(InvalidTypeMessage)]
    case TooLarge => [Failure(TooLargeMessage)]
    case Accepted(_) =>
      [Loading(LoadingMessage), Dismissed,
       if reply.Analyzed? then Success(reply.expenseCount) else Failure(FailureMessage(reply))]
  }

  /**
    An accepted upload ends with exactly one outcome toast: a success
    carrying the number of expenses found, or a failure with the message of
    FailureMessage.
  */
  lemma AcceptedUploadOutcome(f: File, reply: Reply)
    ensures var ts := UploadToasts(Accepted(f), reply);
      && ts[0] == Loading(LoadingMessage) && ts[1] == Dismissed
      && (reply.Analyzed? <==> ts[2].Success?)
      && (reply.Analyzed? ==> ts[2].expenseCount == reply.expenseCount)
      && (!reply.Analyzed? ==> ts[2] == Failure(FailureMessage(reply)))
  {}

  /** An entry of `navLinks`: the Add Receipt entry has no `href`. */
  datatype NavEntry = NavEntry(href: Option<string>, text: string)

  const NavLinks: seq<NavEntry> := [
    NavEntry(Some("/analysis"), "Analysis"),
    NavEntry(None, "Add Receipt"),
    NavEntry(Some(ReceiptsPath), "Receipts")
  ]

  /** What an entry renders as: a link, highlighted when active, or a button. */
  datatype NavItem =
    | NavLink(href: string, text: string, active: bool)
    | NavButton(text: string, disabled: bool)

  /**
    One entry: a non-empty `href` renders a link that is active when it
    equals the current path; otherwise the upload button, disabled while
    uploading.
  */
  function RenderEntry(e: NavEntry, pathname: string, isUploading: bool): (item: NavItem)
    ensures item.NavLink? <==> e.href.Some? && e.href.value != ""
    ensures item.text == e.text
  {
    if e.href.Some? && e.href.value != "" then NavLink(e.href.value, e.text, pathname == e.href.value)
    else NavButton(e.text, isUploading)
  }

  /** The rendered navigation entries, in order. */
  function RenderNav(entries: seq<NavEntry>, pathname: string, isUploading: bool): (items: seq<NavItem>)
    ensures |items| == |entries|
    ensures forall i :: 0 <= i < |entries| ==> items[i] == RenderEntry(entries[i], pathname, isUploading)
  {
    if entries == [] then []
    else [RenderEntry(entries[0], pathname, isUploading)] + RenderNav(entries[1..], pathname, isUploading)
  }

  /** The rendered navigation bar: the file input's `disabled` and the entries. */
  datatype NavView = NavView(inputDisabled: bool, items: seq<NavItem>)

  function View(pathname: string, isUploading: bool): (v: NavView)
    ensures v.inputDisabled == isUploading
    ensures v.items == [
      NavLink("/analysis", "Analysis", pathname == "/analysis"),
      NavButton("Add Receipt", isUploading),
      NavLink("/receipts", "Receipts", pathname == "/receipts")
    ]
  {
    NavView(isUploading, RenderNav(NavLinks, pathname, isUploading))
  }

  /**
    While an upload is in progress the file input and the Add Receipt button
    are both disabled, and otherwise both are enabled.
  */
  lemma UploadingDisablesControls(pathname: string, isUploading: bool)
    ensures var v := View(pathname, isUploading);
      && v.inputDisabled == isUploading
      && |v.items| == 3
      && v.items[1] == NavButton("Add Receipt", isUploading)
      && forall i :: 0 <= i < |v.items| && v.items[i].NavButton? ==> v.items[i].disabled == isUploading
  {}

  /** A link is highlighted exactly when its `href` is the current path, so at most one is. */
  lemma ActiveLinkIsCurrentPath(pathname: string, isUploading: bool)
    ensures var items := View(pathname, isUploading).items;
      && (forall i :: 0 <= i < |items| && items[i].NavLink? ==> (items[i].active <==> items[i].href == pathname))
      && (forall i, j :: 0 <= i < j < |items| && items[i].NavLink? && items[j].NavLink? ==>
            !(items[i].active && items[j].active))
  {}

  /**
    The component's state: the current path, the `isUploading` flag, the
    hidden file input (whether its ref is attached, and its value), the
    toasts shown so far and the files sent to the analysis endpoint.
  */
  class BottomNavbar {
    var pathname: string
    var isUploading: bool
    var inputAttached: bool
    var inputValue: string
    var toasts: seq<Toast>
    var uploads: seq<File>

    /** Mounting: not uploading, nothing shown, nothing sent. */
    constructor (pathname: string, inputAttached: bool, inputValue: string)
      ensures this.pathname == pathname && !isUploading
      ensures this.inputAttached == inputAttached && this.inputValue == inputValue
      ensures toasts == [] && uploads == []
    {
      this.pathname := pathname;
      isUploading := false;
      this.inputAttached := inputAttached;
      this.inputValue := inputValue;
      toasts := [];
      uploads := [];
    }

    /** The rendered bar in the current state. */
    function Rendered(): (v: NavView)
      reads this
      ensures v.inputDisabled == isUploading
    {
      View(pathname, isUploading)
    }

    /** Both checks passed: set `isUploading`, show the loading toast, send the file. */
    method BeginUpload(file: File)
      modifies this
      ensures isUploading
      ensures toasts == old(toasts) + [Loading(LoadingMessage)]
      ensures uploads == old(uploads) + [file]
      ensures pathname == old(pathname) && inputValue == old(inputValue)
      ensures inputAttached == old(inputAttached)
    {
      isUploading := true;
      toasts := toasts + [Loading(LoadingMessage)];
      uploads := uploads + [file];
    }

    /**
      The reply arrived: on success clear the input (when its ref is
      attached) and go to /receipts; on failure report the message; either
      way (`finally`) clear `isUploading`.
    */
    method FinishUpload(reply: Reply)
      requires isUploading
      modifies this
      ensures !isUploading
      ensures reply.Analyzed? ==> toasts == old(toasts) + [Dismissed, Success(reply.expenseCount)]
      ensures !reply.Analyzed? ==> toasts == old(toasts) + [Dismissed, Failure(FailureMessage(reply))]
      ensures pathname == (if reply.Analyzed? then ReceiptsPath else old(pathname))
      ensures inputValue == (if reply.Analyzed? && inputAttached then "" else old(inputValue))
      ensures uploads == old(uploads) && inputAttached == old(inputAttached)
    {
      if reply.Analyzed? {
        toasts := toasts + [Dismissed, Success(reply.expenseCount)];
        if inputAttached {
          inputValue := "";
        }
        pathname := ReceiptsPath;
      } else {
        toasts := toasts + [Dismissed, Failure(FailureMessage(reply))];
      }
      isUploading := false;
    }

    /**
      handleImageUpload. A missing, mistyped or oversized file returns early
      without touching `isUploading` and without a request; an accepted file
      is sent once, and `isUploading` is false again when the handler ends.
    */
    method HandleImageUpload(files: seq<File>, reply: Reply)
      modifies this
      ensures var s := Screen(files);
        && toasts == old(toasts) + UploadToasts(s, reply)
        && uploads == old(uploads) + (if s.Accepted? then [s.file] else [])
        && isUploading == (if s.Accepted? then false else old(isUploading))
        && pathname == (if s.Accepted? && reply.Analyzed? then ReceiptsPath else old(pathname))
        && inputValue == (if s.Accepted? && reply.Analyzed? && inputAttached then "" else old(inputValue))
        && inputAttached == old(inputAttached)
    {
      var s := Screen(files);
      match s
      case NoFile =>
        return;
      case InvalidType =>
        toasts := toasts + [Failure(InvalidTypeMessage)];
        return;
      case TooLarge =>
        toasts := toasts + [Failure(TooLargeMessage)];
        return;
      case Accepted(file) =>
        BeginUpload(file);
        FinishUpload(reply);
    }
  }
}
