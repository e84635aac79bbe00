/** The component's state and its event handlers. Each gateway call is
    replaced by its outcome, passed in as a parameter; the submit handlers
    return the request they issue, or `None` when they issue none, and the
    delete handler returns the id it sends the DELETE for. */
module Manager {
  import opened Text
  import opened Posts
  import opened FormState
  import opened Views

  class PostManager {
    var data: seq<Post>
    var openAdd: bool
    var openEdit: bool
    var isFetched: bool
    var form: Fields
    var editData: Option<Post>
    var errors: Fields
    var searchTerm: string
    var currentPage: int

    /** The state of a freshly mounted component. */
    constructor ()
      ensures data == [] && !openAdd && !openEdit && !isFetched
      ensures form == Empty && editData == None && errors == Empty
      ensures searchTerm == "" && currentPage == 1
    {
      data := [];
      openAdd, openEdit, isFetched := false, false, false;
      form, editData, errors := Empty, None, Empty;
      searchTerm, currentPage := "", 1;
    }

    /** The mount effect: the latch lets only the first run issue the initial
        fetch; a successful fetch replaces the collection, a failed one leaves
        it as it was. */
    method Mount(response: Option<seq<Post>>) returns (requested: bool)
      modifies this`isFetched, this`data
      ensures requested == !old(isFetched)
      ensures isFetched
      ensures data == if requested && response.Some? then response.value else old(data)
    {
      requested := false;
      if !isFetched {
        isFetched := true;
        requested := true;
        if response.Some? {
          data := response.value;
        }
      }
    }

    /** `validateForm`: records one message per blank field and reports
        whether there was none. */
    method ValidateForm() returns (isValid: bool)
      modifies this`errors
      ensures isValid == IsValid(form)
      ensures errors == RequiredErrors(form)
      ensures isValid <==> errors == Empty
    {
      var newErrors := Empty;
      isValid := true;
      if IsBlank(form.title) {
        newErrors := newErrors.(title := TitleRequired);
        isValid := false;
      }
      if IsBlank(form.body) {
        newErrors := newErrors.(body := BodyRequired);
        isValid := false;
      }
      errors := newErrors;
      ValidIffNoErrors(form);
    }

    /** Submit of the Add dialog. An invalid form is not sent and changes
        nothing but the errors; a valid one is sent as the request body, and
        when the server answers with a post, that post goes in front of the
        collection, the fields are cleared and the dialog closes. */
    method HandleAddPost(response: Option<Post>) returns (request: Option<Fields>)
      modifies this`errors, this`data, this`form, this`openAdd
      ensures errors == RequiredErrors(old(form))
      ensures request == if IsValid(old(form)) then Some(old(form)) else None
      ensures if request.Some? && response.Some?
              then data == Prepend(old(data), response.value) && form == Empty && !openAdd
              else data == old(data) && form == old(form) && openAdd == old(openAdd)
    {
      var valid := ValidateForm();
      if !valid {
        return None;
      }
      request := Some(form);
      if response.Some? {
        var created := response.value;
        data := Prepend(data, created);
        form := Empty;
        openAdd := false;
      }
    }

    /** Submit of the Edit dialog. Without a post being edited nothing is
        validated or sent; otherwise an invalid form is not sent, and a valid
        one is sent for the edited id. When the server answers, every post
        with that id becomes the answer, the fields are cleared and the
        dialog closes. */
    method HandleEditPost(response: Option<Post>) returns (request: Option<(int, Fields)>)
      modifies this`errors, this`data, this`form, this`openEdit
      ensures errors == if editData.Some? then RequiredErrors(old(form)) else old(errors)
      ensures request == if editData.Some? && IsValid(old(form))
                         then Some((editData.value.id, old(form))) else None
      ensures if request.Some? && response.Some?
              then data == Replace(old(data), editData.value.id, response.value) &&
                   form == Empty && !openEdit
              else data == old(data) && form == old(form) && openEdit == old(openEdit)
    {
      if editData.None? {
        return None;
      }
      var valid := ValidateForm();
      if !valid {
        return None;
      }
      var target := editData.value;
      request := Some((target.id, form));
      if response.Some? {
        data := Replace(data, target.id, response.value);
        form := Empty;
        openEdit := false;
      }
    }

    /** `handleChange`: sets one field and clears that field's error if it
        has one; the other field and its error stay as they were. */
    method HandleChange(name: Field, value: string)
      modifies this`form, this`errors
      ensures form == old(form).With(name, value)
      ensures errors == if old(errors).Get(name) != "" then old(errors).With(name, "") else old(errors)
      ensures form.Get(name) == value && errors.Get(name) == ""
      ensures forall other :: other != name ==>
                form.Get(other) == old(form).Get(other) && errors.Get(other) == old(errors).Get(other)
    {
      form := form.With(name, value);
      if errors.Get(name) != "" {
        errors := errors.With(name, "");
      }
    }

    /** `handleDelete`: the DELETE request is always issued; once it
        completes the posts with that id leave the collection. */
    method HandleDelete(id: int, completed: bool) returns (request: int)
      modifies this`data
      ensures request == id
      ensures data == if completed then Remove(old(data), id) else old(data)
    {
      request := id;
      if completed {
        data := Remove(data, id);
      }
    }

    /** `openEditModalHandler`: remembers the post, copies its title and body
        into the fields and opens the Edit dialog; the errors are kept. */
    method OpenEditModal(post: Post)
      modifies this`editData, this`form, this`openEdit
      ensures editData == Some(post)
      ensures form == Fields(post.title, post.body)
      ensures openEdit
    {
      editData := Some(post);
      form := Fields(post.title, post.body);
      openEdit := true;
    }

    /** The "Add Post" button. */
    method OpenAddModal()
      modifies this`openAdd
      ensures openAdd
    {
      openAdd := true;
    }

    /** Cancel in the Add dialog: closes it and discards fields and errors. */
    method CancelAdd()
      modifies this`openAdd, this`form, this`errors
      ensures !openAdd && form == Empty && errors == Empty
    {
      openAdd := false;
      form := Empty;
      errors := Empty;
    }

    /** Cancel in the Edit dialog: closes it and discards fields and errors. */
    method CancelEdit()
      modifies this`openEdit, this`form, this`errors
      ensures !openEdit && form == Empty && errors == Empty
    {
      openEdit := false;
      form := Empty;
      errors := Empty;
    }

    /** Closing the Add dialog from its frame only clears the open flag. */
    method CloseAddModal()
      modifies this`openAdd
      ensures !openAdd
    {
      openAdd := false;
    }

    /** Closing the Edit dialog from its frame only clears the open flag. */
    method CloseEditModal()
      modifies this`openEdit
      ensures !openEdit
    {
      openEdit := false;
    }

    /** The search input. The page is not re-clamped. */
    method SetSearchTerm(term: string)
      modifies this`searchTerm
      ensures searchTerm == term
    {
      searchTerm := term;
    }

    /** `handlePageChange`. */
    method HandlePageChange(page: int)
      modifies this`currentPage
      ensures currentPage == page
    {
      currentPage := page;
    }

    /** `filteredData` of the current state. */
    function FilteredPosts(): (r: seq<Post>)
      reads this
      ensures IsSubsequence(r, data)
      ensures forall p :: p in r <==> p in data && Matches(p, searchTerm)
      ensures forall p :: multiset(r)[p] == if Matches(p, searchTerm) then multiset(data)[p] else 0
    {
      Search(data, searchTerm)
    }

    /** `currentPosts`: at most one page of posts, each of which is in the
        collection and matches the search term. */
    function CurrentPosts(): (r: seq<Post>)
      reads this
      ensures |r| <= PageSize
      ensures forall p :: p in r ==> p in data && Matches(p, searchTerm)
    {
      var page := Paginate(FilteredPosts(), currentPage);
      assert forall p :: p in page ==> p in FilteredPosts() by {
        var filtered := FilteredPosts();
        if 1 <= currentPage {
          assert page == filtered[Min((currentPage - 1) * PageSize, |filtered|)..Min(currentPage * PageSize, |filtered|)];
        } else {
          assert forall p :: p in Slice(filtered, (currentPage - 1) * PageSize, currentPage * PageSize) ==> p in filtered;
        }
      }
      page
    }

    /** `totalPages` of the current state. */
    function PageCount(): (t: nat)
      reads this
      ensures |FilteredPosts()| <= t * PageSize
      ensures 0 < t ==> (t - 1) * PageSize < |FilteredPosts()|
    {
      TotalPages(|FilteredPosts()|)
    }
  }

  /** The mount effect run twice in a row, as a development build does:
      exactly one initial fetch is issued. */
  method MountTwice(m: PostManager, first: Option<seq<Post>>, second: Option<seq<Post>>)
    returns (requests: nat)
    requires !m.isFetched
    modifies m`isFetched, m`data
    ensures requests == 1 && m.isFetched
    ensures m.data == if first.Some? then first.value else old(m.data)
  {
    var a := m.Mount(first);
    var b := m.Mount(second);
    requests := (if a then 1 else 0) + (if b then 1 else 0);
  }
}
