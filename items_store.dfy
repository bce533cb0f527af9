/** The item store: the local mirror of the backend's item list, a loading
    flag and the last fetch error, updated by four actions. Each action takes
    the outcome of its backend call as a `Response` instead of making the call,
    and runs to completion without interleaving with another action. */
module ItemsStore {
  import opened Wrappers
  import opened ItemLists

  /** What the HTTP client rejects with: a network failure or an error status,
      possibly with a message from the server. The store never looks inside. */
  datatype ApiError = ApiError(message: Option<string>)

  /** The settled outcome of one awaited backend call. */
  datatype Response<T> = Ok(payload: T) | Rejected(error: ApiError)

  /** The kind of toast an action raises; the texts are not modelled. */
  datatype Toast = NoToast | SuccessToast | ErrorToast

  class Store {
    var items: seq<Item>
    var loading: bool
    var error: Option<ApiError>

    /** The initial state: no items, not loading, no error. */
    constructor ()
      ensures items == [] && !loading && error == None
    {
      items := [];
      loading := false;
      error := None;
    }

    /** `fetchItems`. `response` carries `response.data.items`, which the
        backend may leave out. The list is replaced on success (by the empty
        list when `items` is absent); on failure the error is recorded and the
        list kept. Loading is off afterwards either way. */
    method FetchItems(response: Response<Option<seq<Item>>>) returns (toast: Toast)
      modifies this
      ensures !loading
      ensures response.Ok? ==>
        items == (if response.payload.Some? then response.payload.value else []) &&
        error == old(error) && toast == NoToast
      ensures response.Rejected? ==>
        items == old(items) && error == Some(response.error) && toast == ErrorToast
    {
      loading := true;
      match response {
        case Ok(listed) =>
          items := if listed.Some? then listed.value else [];
          toast := NoToast;
        case Rejected(e) =>
          error := Some(e);
          toast := ErrorToast;
      }
      loading := false;
    }

    /** `addItem`. `response` carries the created item (`response.data`),
        which is pushed onto the end of the list. A failure leaves the list
        alone and is handed back to the caller in `rethrown`. */
    method AddItem(response: Response<Item>) returns (toast: Toast, rethrown: Option<ApiError>)
      modifies this
      ensures loading == old(loading) && error == old(error)
      ensures response.Ok? ==>
        items == old(items) + [response.payload] && toast == SuccessToast && rethrown == None
      ensures response.Ok? ==>
        |items| == |old(items)| + 1 && items[..|old(items)|] == old(items) &&
        items[|items| - 1] == response.payload
      ensures response.Rejected? ==>
        items == old(items) && toast == ErrorToast && rethrown == Some(response.error)
    {
      match response {
        case Ok(created) =>
          items := items + [created];
          toast, rethrown := SuccessToast, None;
        case Rejected(e) =>
          toast, rethrown := ErrorToast, Some(e);
      }
    }

    /** `editItem(id, ...)`. `response` carries `response.data.updatedItem`,
        which the backend may leave out. On success the first entry with `_id`
        `id` is overwritten by the refreshed server item; when no entry has
        that `_id` the list is kept and the action still reports success.
        Reading `stock` of an absent updated item throws, but only once an
        entry was found; that exception, like a rejected call, is caught: the
        list is kept, an error toast is raised, nothing reaches the caller. */
    method EditItem(id: Id, response: Response<Option<Item>>) returns (toast: Toast)
      modifies this
      ensures loading == old(loading) && error == old(error)
      ensures response.Ok? && response.payload.Some? ==>
        items == Edited(old(items), id, response.payload.value) && toast == SuccessToast
      ensures response.Ok? && response.payload.None? ==>
        items == old(items) &&
        toast == (if FirstIndex(old(items), id).None? then SuccessToast else ErrorToast)
      ensures response.Rejected? ==> items == old(items) && toast == ErrorToast
      ensures UniqueIds(old(items)) && (response.Ok? && response.payload.Some? ==> response.payload.value.id == id) ==>
        UniqueIds(items)
    {
      match response {
        case Ok(updated) =>
          var index := FindIndex(items, id);
          if index != -1 {
            match updated {
              case Some(u) =>
                if u.id == id && UniqueIds(items) {
                  EditedKeepsUnique(items, id, u);
                }
                items := items[index := Refreshed(u)];
                toast := SuccessToast;
              case None =>
                toast := ErrorToast;
            }
          } else {
            toast := SuccessToast;
          }
        case Rejected(_) =>
          toast := ErrorToast;
      }
    }

    /** `deleteItem(id)`. On success every entry with `_id` `id` is filtered
        out; a failure leaves the list alone and is not propagated. */
    method DeleteItem(id: Id, response: Response<()>) returns (toast: Toast)
      modifies this
      ensures loading == old(loading) && error == old(error)
      ensures response.Ok? ==> items == Without(old(items), id) && toast == SuccessToast
      ensures response.Rejected? ==> items == old(items) && toast == ErrorToast
      ensures UniqueIds(old(items)) ==> UniqueIds(items)
    {
      match response {
        case Ok(_) =>
          if UniqueIds(items) {
            WithoutKeepsUnique(items, id);
          }
          items := Without(items, id);
          toast := SuccessToast;
        case Rejected(_) =>
          toast := ErrorToast;
      }
    }
  }

  /** A session against a backend that answers every call: the store's
      contracts alone fix the list after each step. */
  method Session(a: Item, b: Item, c: Item)
    requires a.id != b.id && c.id == b.id
  {
    var store := new Store();
    var t := store.FetchItems(Ok(Some([a])));
    assert store.items == [a];
    var t2, thrown := store.AddItem(Ok(b));
    assert store.items == [a, b] && thrown == None;
    t := store.EditItem(b.id, Ok(Some(c)));
    assert FirstIndex([a, b], b.id) == Some(1);
    assert store.items == [a, Refreshed(c)];
    t := store.DeleteItem(a.id, Ok(()));
    assert store.items == [Refreshed(c)];
    t := store.DeleteItem(a.id, Rejected(ApiError(None)));
    assert store.items == [Refreshed(c)] && t == ErrorToast && store.error == None;
    t := store.FetchItems(Rejected(ApiError(None)));
    assert store.items == [Refreshed(c)] && store.error == Some(ApiError(None)) && !store.loading;
  }
}
