/**
 * The dashboard view's component state and the handlers that change it. Each asynchronous
 * completion (the user lookup, the fetch, the insert, a change-feed event) is one atomic step;
 * the backend's answer is the step's argument.
 */
module DashboardPage {
  import opened Wrappers
  import opened BookmarkList

  /** The signed-in identity; only its id is used by the handlers. */
  datatype User = User(id: string, email: string)

  class Dashboard {
    var bookmarks: seq<Bookmark>
    var url: string
    var title: string
    var loading: bool
    var user: Option<User>

    /** The state hooks' initial values. */
    constructor ()
      ensures bookmarks == [] && url == "" && title == "" && !loading && user == None
    {
      bookmarks, url, title, loading, user := [], "", "", false, None;
    }

    /** Completion of the user lookup on mount; the list is not touched here. */
    method ResolveUser(u: Option<User>)
      modifies this
      ensures user == u
      ensures bookmarks == old(bookmarks) && url == old(url) && title == old(title)
      ensures loading == old(loading)
    {
      user := u;
    }

    /** Typing into the URL input. */
    method SetUrl(s: string)
      modifies this
      ensures url == s
      ensures bookmarks == old(bookmarks) && title == old(title)
      ensures loading == old(loading) && user == old(user)
    {
      url := s;
    }

    /** Typing into the title input. */
    method SetTitle(s: string)
      modifies this
      ensures title == s
      ensures bookmarks == old(bookmarks) && url == old(url)
      ensures loading == old(loading) && user == old(user)
    {
      title := s;
    }

    /**
     * Completion of the fetch: any returned array, even an empty one, replaces the whole list;
     * no data leaves the list as it was.
     */
    method FetchCompleted(data: Option<seq<Bookmark>>)
      modifies this
      ensures data.Some? ==> bookmarks == data.value
      ensures data.None? ==> bookmarks == old(bookmarks)
      ensures url == old(url) && title == old(title)
      ensures loading == old(loading) && user == old(user)
    {
      if data.Some? {
        bookmarks := data.value;
      }
    }

    /**
     * A change-feed event. The subscription exists only while a user is signed in, so with no
     * user nothing happens.
     */
    method OnChange(ev: ChangeEvent)
      modifies this
      ensures user.None? ==> bookmarks == old(bookmarks)
      ensures user.Some? && ev.Insert? ==> bookmarks == Prepend(old(bookmarks), ev.row)
      ensures user.Some? && ev.Delete? ==> bookmarks == RemoveId(old(bookmarks), ev.oldId)
      ensures ev.Other? ==> bookmarks == old(bookmarks)
      ensures url == old(url) && title == old(title)
      ensures loading == old(loading) && user == old(user)
    {
      if user.None? {
        return;
      }
      bookmarks := ApplyEvent(bookmarks, ev);
    }

    /**
     * Submitting the form, up to the awaited insert: with an empty URL, an empty title or no
     * user nothing happens; otherwise the button goes into its loading state.
     */
    method BeginAdd() returns (started: bool)
      modifies this
      ensures started <==> url != "" && title != "" && user.Some?
      ensures loading == (started || old(loading))
      ensures bookmarks == old(bookmarks) && url == old(url) && title == old(title)
      ensures user == old(user)
    {
      if url == "" || title == "" || user.None? {
        return false;
      }
      loading := true;
      started := true;
    }

    /**
     * Completion of the insert: the returned row, if any, goes to the front; the form is
     * cleared and the loading state ends in either case.
     */
    method FinishAdd(data: Option<Bookmark>)
      modifies this
      ensures data.Some? ==> bookmarks == Prepend(old(bookmarks), data.value)
      ensures data.None? ==> bookmarks == old(bookmarks)
      ensures url == "" && title == "" && !loading
      ensures user == old(user)
    {
      if data.Some? {
        bookmarks := Prepend(bookmarks, data.value);
      }
      url := "";
      title := "";
      loading := false;
    }

    /** The whole form handler as one step, `data` being what the insert returned. */
    method AddBookmark(data: Option<Bookmark>) returns (started: bool)
      modifies this
      ensures started <==> old(url) != "" && old(title) != "" && old(user).Some?
      ensures !started ==> bookmarks == old(bookmarks) && url == old(url) &&
                           title == old(title) && loading == old(loading)
      ensures started && data.Some? ==> bookmarks == Prepend(old(bookmarks), data.value)
      ensures started && data.None? ==> bookmarks == old(bookmarks)
      ensures started ==> url == "" && title == "" && !loading
      ensures user == old(user)
    {
      started := BeginAdd();
      if started {
        FinishAdd(data);
      }
    }

    /**
     * The delete button: the entries with `id` leave the list before the remote delete is sent,
     * and nothing puts them back whatever that call does.
     */
    method DeleteBookmark(id: string)
      modifies this
      ensures bookmarks == RemoveId(old(bookmarks), id)
      ensures !HasId(bookmarks, id)
      ensures url == old(url) && title == old(title)
      ensures loading == old(loading) && user == old(user)
    {
      bookmarks := RemoveId(bookmarks, id);
    }
  }

  /**
   * A session driven through the handlers: sign-in and fetch, one add whose own INSERT event
   * echoes back, a feed DELETE and a local delete. Returns the list after the echo and at the end.
   */
  method DuplicateRaceSession(u: User, first: Bookmark, typedUrl: string, typedTitle: string,
                              created: Bookmark)
    returns (afterEcho: seq<Bookmark>, final: seq<Bookmark>)
    requires typedUrl != "" && typedTitle != ""
    requires first.id != created.id
    ensures afterEcho == [created, created, first]
    ensures CountId(afterEcho, created.id) == 2
    ensures final == []
  {
    var d := new Dashboard();
    d.ResolveUser(Some(u));
    d.FetchCompleted(Some([first]));
    d.SetUrl(typedUrl);
    d.SetTitle(typedTitle);
    var started := d.AddBookmark(Some(created));
    assert started;
    assert d.bookmarks == [created, first];
    d.OnChange(Insert(created));
    afterEcho := d.bookmarks;
    assert afterEcho == [created, created, first];
    d.OnChange(Delete(first.id));
    assert [created, created, first][1..] == [created, first];
    assert [created, first][1..] == [first];
    assert [first][1..] == [];
    assert RemoveId([first], first.id) == [];
    assert RemoveId([created, first], first.id) == [created];
    assert d.bookmarks == [created, created];
    assert [created, created][1..] == [created];
    assert [created][1..] == [];
    d.DeleteBookmark(created.id);
    final := d.bookmarks;
  }
}
