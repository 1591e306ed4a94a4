# shareit in Dafny

A model of the business rules of *shareit*, a service where users lend items to each other. Owners add items and
other users book them. The owner approves or rejects each booking. Users may post item requests, and owners may
answer them with items. Past bookers may comment on items.

The model is functional. Each service operation is a pure function from the tables it reads (and `now`, the
clock) to either the tables it leaves behind plus its answer, or the exception it throws (`Result`). Modules
follow the program's layout:

- `Model` holds the entities and transfer objects. A Java field that may be `null` and that the code reads as
  such is an `Option`.
- `Common` holds `Option`, `Result` and the exceptions.
- `Text` covers upper and lower case, `isBlank`, `contains` and the decimal rendering of ids in messages.
- `Seqs` covers filtering, the first match, a stable insertion sort, paging and the page formula.
- `Tables` provides `findById` over a JPA table: the table is the sequence of its rows, and a lookup finds the first row with the id.
- `BookingRepository` and `ItemRepository` express the JPQL queries as filters and orderings over rows and `now`.
- `BookingService`, `ItemService`, `UserService` and `ItemRequestService` model the service implementations.
  A table is `rows` plus the id counter: `lastId` is the id of the last row the model appended, and the next
  appended row gets `lastId + 1`. `Tables.Save` is the repositories' `save`: an entity whose id names a stored row
  overwrites it, and any other entity is appended under the next id.
- `BookingGateway` covers the gateway's reading of `state`, `from` and `size`.
- `Stores`, `ItemStore` and `UserStore` model the map-backed repositories. A store is a `map` from id to
  entity plus the id counter.
- `BookingMapper`, `ItemMapper`, `CommentMapper`, `UserMapper` and `ItemRequestMapper` are the conversions.

## Model

| member | source | states |
|---|---|---|
| `BookingGateway.ParseState` | gateway/src/main/java/ru/practicum/shareit/booking/BookingController.java:72-82 | succeeds exactly when the upper-cased text is the name of a state, with that state; otherwise BadRequest "Unknown state: " followed by the text as the client sent it |
| `BookingGateway.ParseStateName` | gateway/src/main/java/ru/practicum/shareit/booking/BookingController.java:72-75 | every state parses back from its own name, and from its name in lower case |
| `BookingGateway.ParseIgnoresCase` | gateway/src/main/java/ru/practicum/shareit/booking/BookingController.java:75 | two spellings that agree after upper-casing parse to the same state, or both fail |
| `BookingGateway.ReadQuery` | gateway/src/main/java/ru/practicum/shareit/booking/BookingController.java:50-82 | absent parameters default to ALL, 0 and 20; `from < 0` or `size <= 0` is refused as `Invalid`, naming exactly the parameters whose bound is broken, before the state is parsed; with both bounds met the query succeeds exactly when the state parses, and otherwise is BadRequest "Unknown state: " plus the text; an accepted query carries the given bounds and the parsed state |
| `BookingGateway.DefaultQuery` | gateway/src/main/java/ru/practicum/shareit/booking/BookingController.java:52-57 | a listing request with no parameters asks for the first 20 bookings of state ALL |
| `BookingGateway.GatewayListing` | gateway/src/main/java/ru/practicum/shareit/booking/BookingController.java:50-59 | a refused query is answered with its refusal; an accepted one always meets the service's bounds and gets the service's listing |
| `BookingGateway.BothBoundsReported` | gateway/src/main/java/ru/practicum/shareit/booking/BookingController.java:55-57 | a query breaking both bounds is refused naming both `from` and `size` |
| `BookingRepository.FindAll` | src/main/java/ru/practicum/shareit/booking/BookingRepository.java:30-74 | a booking is listed exactly when it is in the booker's or owner's scope and the state's time window or status selects it, and then as often as the table holds it |
| `BookingRepository.FindPage` | src/main/java/ru/practicum/shareit/booking/BookingServiceImpl.java:119-121 | exactly as many rows as page `page` of the matches holds (`size`, or what is left after `page * size`); row `i` is a stored booking in the scope that the state selects, at rank `page * size + i` of all matches ordered by latest start; starts never increase down the page |
| `BookingRepository.FirstPageHoldsAll` | src/main/java/ru/practicum/shareit/booking/BookingServiceImpl.java:119-121 | when all matches fit on page 0, that page holds every match as often as the table does |
| `BookingRepository.EveryMatchIsPaged` | src/main/java/ru/practicum/shareit/booking/BookingServiceImpl.java:119-121 | every match lies on some page; when its start is shared by no other match, it is at its rank's offset on the page covering that rank |
| `BookingRepository.TimeClassesDisjoint` | src/main/java/ru/practicum/shareit/booking/BookingRepository.java:33-51 | with start before or at end, no booking is in two of PAST, FUTURE and CURRENT |
| `BookingRepository.BoundaryInstantsUnclassified` | src/main/java/ru/practicum/shareit/booking/BookingRepository.java:48-51 | the comparisons are strict: a booking starting or ending exactly now is in no time class |
| `BookingRepository.InvertedWindowIsPastAndFuture` | src/main/java/ru/practicum/shareit/booking/BookingRepository.java:33-41 | nothing orders start before end, so a booking whose end precedes its start and brackets now is both PAST and FUTURE, and not CURRENT |
| `BookingRepository.StatusAndTimeIndependent` | src/main/java/ru/practicum/shareit/booking/BookingRepository.java:33-74 | the time states do not look at the status, and the status states do not look at the clock |
| `BookingRepository.FindLastBooking` | src/main/java/ru/practicum/shareit/booking/BookingRepository.java:16-22 | empty exactly when the owner has no ended booking of the item; otherwise such a booking whose end is the latest |
| `BookingRepository.FindNextBooking` | src/main/java/ru/practicum/shareit/booking/BookingRepository.java:24-28 | empty exactly when the owner has no not-yet-started booking of the item; otherwise such a booking whose start is the earliest |
| `BookingRepository.FindByBookerIdAndPastState` | src/main/java/ru/practicum/shareit/booking/BookingRepository.java:43-46 | empty exactly when the booker has no ended booking; otherwise one of the booker's ended bookings, on any item |
| `BookingService.FindBookingById` | src/main/java/ru/practicum/shareit/booking/BookingServiceImpl.java:210-220 | found exactly when some row has the id, with that row; otherwise NotFound "Booking not found with id: N" |
| `BookingService.GetById` | src/main/java/ru/practicum/shareit/booking/BookingServiceImpl.java:34-49 | a missing booking is NotFound; an existing one is shown exactly to its booker and its item's owner, and anyone else gets NotFound |
| `BookingService.Create` | src/main/java/ru/practicum/shareit/booking/BookingServiceImpl.java:52-83 | guards in order: booker exists, item exists, booker is not the owner (NotFound), item available (BadRequest); on success the WAITING booking is saved: a payload id naming a stored booking overwrites that row and keeps the counter, any other payload is appended under the next id; the answer is the DTO of the saved booking |
| `BookingService.Approve` | src/main/java/ru/practicum/shareit/booking/BookingServiceImpl.java:86-110 | an APPROVED booking is refused with BadRequest before ownership is checked; a non-owner gets NotFound; otherwise every row with the id gets status APPROVED or REJECTED per the flag, and nothing else changes |
| `BookingService.Listing` | src/main/java/ru/practicum/shareit/booking/BookingServiceImpl.java:112-161 | only ALL with a page starting past the last match is NotFound; otherwise one DTO per row of the repository page, in its order, each the DTO of a stored booking that the scope and state select, at most `size` of them, latest start first |
| `BookingService.GetByBookerId` | src/main/java/ru/practicum/shareit/booking/BookingServiceImpl.java:113-161 | ALL with nothing on the page is NotFound "No bookings for booker with id N"; otherwise position `i` is the DTO of row `i` of the booker's repository page, each one of the caller's own bookings that the state selects |
| `BookingService.GetByOwnerId` | src/main/java/ru/practicum/shareit/booking/BookingServiceImpl.java:164-208 | ALL with nothing on the page is NotFound "No bookings for owner with id N"; otherwise position `i` is the DTO of row `i` of the owner's repository page, each a booking of an item the caller owns that the state selects |
| `BookingService.EmptyListingAsymmetry` | src/main/java/ru/practicum/shareit/booking/BookingServiceImpl.java:123-156 | with no matching booking, ALL fails while every other state answers with an empty list |
| `BookingService.CreatePreservesValid` | src/main/java/ru/practicum/shareit/booking/BookingServiceImpl.java:80-82 | creating keeps booking ids distinct, present and within the identity counter |
| `BookingService.ApprovePreservesValid` | src/main/java/ru/practicum/shareit/booking/BookingServiceImpl.java:103-109 | a decision keeps the table's ids valid |
| `BookingService.ApproveTouchesOneRow` | src/main/java/ru/practicum/shareit/booking/BookingServiceImpl.java:103-109 | in a valid table a decision changes exactly one row, and only its status |
| `BookingService.DecidedIsFound` | src/main/java/ru/practicum/shareit/booking/BookingServiceImpl.java:103-109 | after a decision, the lookup finds the booking with the decided status and otherwise unchanged |
| `BookingService.ApprovedIsFinal` | src/main/java/ru/practicum/shareit/booking/BookingServiceImpl.java:88-92 | once approved, every further decision on the booking, by anyone and either way, is refused with BadRequest |
| `BookingService.RejectedCanBeApproved` | src/main/java/ru/practicum/shareit/booking/BookingServiceImpl.java:88-107 | a REJECTED booking is not final: its owner can still approve it |
| `BookingService.CreatedIsFound` | src/main/java/ru/practicum/shareit/booking/BookingServiceImpl.java:80-82 | in a valid table the answer carries an id, and looking that id up finds the WAITING booking of this booker, item and window |
| `BookingService.CreateReopensDecided` | src/main/java/ru/practicum/shareit/booking/BookingServiceImpl.java:80-82 | a payload whose id names a stored booking overwrites it in place: same counter, same row count, the answer keeps the id, and the booking is WAITING again with the new booker |
| `BookingService.CreatedBookingIsVisibleToParticipants` | src/main/java/ru/practicum/shareit/booking/BookingServiceImpl.java:37-48 | a new booking is WAITING and readable by exactly its booker and its item's owner; the booker reads back what `create` returned |
| `BookingService.BookApproveThenFrozen` | src/main/java/ru/practicum/shareit/booking/BookingServiceImpl.java:52-110 | booked, then approved by the item's owner, then every further decision refused |
| `ItemRepository.SearchAll` | src/main/java/ru/practicum/shareit/item/ItemRepository.java:16-21 | an item is found exactly when it is available and its upper-cased name or description contains the upper-cased text |
| `ItemRepository.SearchAllCounts` | src/main/java/ru/practicum/shareit/item/ItemRepository.java:16-21 | the search holds every selected item as often as the table does, and nothing else |
| `ItemRepository.SearchItem` | src/main/java/ru/practicum/shareit/item/ItemRepository.java:16-21 | exactly as many hits as page `page` of the full search holds, and hit `i` is the full search's hit at position `page * size + i` |
| `ItemRepository.SearchPageHits` | src/main/java/ru/practicum/shareit/item/ItemRepository.java:16-21 | every item on a search page is a stored item that the condition selects |
| `ItemRepository.EveryHitIsOnAPage` | src/main/java/ru/practicum/shareit/item/ItemRepository.java:16-21 | every stored item the search selects lies on some page |
| `ItemRepository.SearchIgnoresCase` | src/main/java/ru/practicum/shareit/item/ItemRepository.java:19-20 | search texts that agree after upper-casing find the same items |
| `ItemRepository.UnavailableNeverFound` | src/main/java/ru/practicum/shareit/item/ItemRepository.java:18 | an unavailable item is never found, whatever the text |
| `ItemRepository.FoundByNamePiece` | src/main/java/ru/practicum/shareit/item/ItemRepository.java:19 | an available item is found by any contiguous piece of its name |
| `ItemRepository.FindByIdAndOwnerId` | src/main/java/ru/practicum/shareit/item/ItemRepository.java:23 | present exactly when some item has both the id and the owner, and then it is such an item |
| `ItemRepository.FindByIdAndOwnerIdIsGuardedLookup` | src/main/java/ru/practicum/shareit/item/ItemRepository.java:23 | with unique ids, it is the lookup by id kept only when the owner matches |
| `ItemRepository.FindAllByOwnerIdOrderById` | src/main/java/ru/practicum/shareit/item/ItemRepository.java:14 | exactly as many items as page `page` of the owner's items holds; item `i` is one of the owner's stored items at rank `page * size + i` by id; ids never decrease down the page |
| `ItemRepository.FirstOwnerPageHoldsAll` | src/main/java/ru/practicum/shareit/item/ItemRepository.java:14 | when the owner's items fit on page 0, that page holds all of them |
| `ItemRepository.OwnedItemsCounts` | src/main/java/ru/practicum/shareit/item/ItemRepository.java:14 | the owner's items are selected as often as the table holds them, and no other item is |
| `ItemRepository.EveryOwnItemIsPaged` | src/main/java/ru/practicum/shareit/item/ItemRepository.java:14 | every item of the owner lies on some page; when its id is unique, it is at its rank's offset on the page covering that rank |
| `ItemRepository.FindAllItemsByRequestId` | src/main/java/ru/practicum/shareit/item/ItemRepository.java:25-28 | exactly the items answering the request, each as often as in the table |
| `ItemService.CommentsOf` | src/main/java/ru/practicum/shareit/item/ItemServiceImpl.java:163 | exactly the comments on the item, each as often as in the table |
| `ItemService.CommentDtosOfItem` | src/main/java/ru/practicum/shareit/item/ItemServiceImpl.java:163-167 | the shown comment DTOs are exactly the DTOs of the comments on the item |
| `ItemService.ItemView` | src/main/java/ru/practicum/shareit/item/ItemServiceImpl.java:139-170 | the item's fields; a last booking exactly when the viewer owns an ended booking of it, then the one that ended latest; a next booking exactly when the viewer owns a future one, then the earliest; exactly the comments on the item |
| `ItemService.NonOwnerSeesNoBookings` | src/main/java/ru/practicum/shareit/item/ItemServiceImpl.java:140-143 | anyone other than the owner sees neither a last nor a next booking |
| `ItemService.GetItem` | src/main/java/ru/practicum/shareit/item/ItemServiceImpl.java:38-46 | NotFound exactly when no item has the id; otherwise the view of an item with that id |
| `ItemService.GetOwnItems` | src/main/java/ru/practicum/shareit/item/ItemServiceImpl.java:49-59 | position `i` is the owner's view of item `i` of the repository page at `from / size`, so at most `size` views, in ascending id order |
| `ItemService.ViewsOfOwn` | src/main/java/ru/practicum/shareit/item/ItemServiceImpl.java:56-58 | each view on the owner's page shows one of the owner's stored items |
| `ItemService.Update` | src/main/java/ru/practicum/shareit/item/ItemServiceImpl.java:76-102 | NotFound exactly when the caller owns no item with the id; otherwise name, description and available are each replaced only when given, and only that item's rows change |
| `ItemService.PatchIdempotent` | src/main/java/ru/practicum/shareit/item/ItemServiceImpl.java:85-99 | applying the same payload twice changes nothing more |
| `ItemService.PatchedIsFound` | src/main/java/ru/practicum/shareit/item/ItemServiceImpl.java:77-101 | after an update, the owner lookup finds the patched item |
| `ItemService.UpdateIdempotent` | src/main/java/ru/practicum/shareit/item/ItemServiceImpl.java:76-102 | repeating an update gives the same table and the same answer |
| `ItemService.EmptyPatchKeepsTable` | src/main/java/ru/practicum/shareit/item/ItemServiceImpl.java:85-101 | with unique ids, a payload without name, description or available leaves the table unchanged |
| `ItemService.SearchItem` | src/main/java/ru/practicum/shareit/item/ItemServiceImpl.java:105-117 | blank text finds nothing; otherwise position `i` is the DTO of hit `i` of the repository's search page at `from / size` |
| `ItemService.Create` | src/main/java/ru/practicum/shareit/item/ItemServiceImpl.java:62-73 | NotFound exactly when the owner is missing; otherwise the item with that owner is saved: a payload id naming a stored item overwrites that row and keeps the counter, any other is appended under the next id; the answer is the saved item's DTO, which keeps name, description and available and has a request id exactly when the named request exists |
| `ItemService.CreatedItemIsFound` | src/main/java/ru/practicum/shareit/item/ItemServiceImpl.java:62-72 | in a valid table the answer carries an id, and looking it up finds an item of the poster whose DTO is the answer |
| `ItemService.CreateTakesOverItem` | src/main/java/ru/practicum/shareit/item/ItemServiceImpl.java:68-72 | a payload whose id names a stored item overwrites it: same counter, same row count, the answer keeps the id, and the item now belongs to the poster |
| `ItemService.CreateComment` | src/main/java/ru/practicum/shareit/item/ItemServiceImpl.java:120-137 | BadRequest exactly when the author has no ended booking; otherwise, for one of the author's ended bookings, a comment stamped now on that booking's item is saved (overwriting a stored comment with the payload id, else appended under the next id), and the answer is the DTO of the comment object: the new id when the payload had none, else the payload's id |
| `ItemService.SaveComment` | src/main/java/ru/practicum/shareit/item/ItemServiceImpl.java:134 | a comment with a stored id overwrites that row and keeps the counter; any other is appended under the next id; the comment object gains the new id only when it had none, and is stored as returned in those cases |
| `ItemService.CommentEchoesUnknownId` | src/main/java/ru/practicum/shareit/item/ItemServiceImpl.java:132-136 | a payload id naming no stored comment is answered back unchanged, while the row is stored under the next id |
| `ItemService.CommentIgnoresItemId` | src/main/java/ru/practicum/shareit/item/ItemServiceImpl.java:120-137 | the item id in the request changes neither whether a comment is made nor what it is |
| `ItemService.CommentShownOnItem` | src/main/java/ru/practicum/shareit/item/ItemServiceImpl.java:132-136 | a stored comment with the text, the time and the author appears on the view of the item it was filed under, and it is the answer whenever the payload id was absent or named a stored comment |
| `ItemService.CreateCommentOnItem` | src/main/java/ru/practicum/shareit/item/ItemServiceImpl.java:120-137 | intended rule: BadRequest exactly when the author has no ended booking of this item; otherwise a comment on this item, by this author, stamped now, is saved as `save` does and answered as the code answers |
| `ItemService.CommentOnItemShown` | src/main/java/ru/practicum/shareit/item/ItemServiceImpl.java:132-136 | under the intended rule, a stored comment appears on the view of the item it was written for, and it is the answer whenever the payload id was absent or named a stored comment |
| `ItemService.OnItemIsStricter` | src/main/java/ru/practicum/shareit/item/ItemServiceImpl.java:120-137 | what the intended rule accepts, the code as written accepts too, and their refusals are identical |
| `ItemService.CommentLandsOnAnotherItem` | src/main/java/ru/practicum/shareit/item/ItemServiceImpl.java:120-137 | a concrete input on which the code files a comment for item 5 under item 3, while the intended rule refuses it |
| `ItemStore.AddItem` | src/main/java/ru/practicum/shareit/item/ItemRepositoryInMemory.java:33-47 | a missing user is NotFound, and an unavailable item is BadRequest after that; otherwise the item is stored under the incremented counter, which becomes its id |
| `ItemStore.AddItemFreshKey` | src/main/java/ru/practicum/shareit/item/ItemRepositoryInMemory.java:42-44 | the new key is above every stored key, and the store stays valid |
| `ItemStore.GetItem` | src/main/java/ru/practicum/shareit/item/ItemRepositoryInMemory.java:28-30 | a stored key yields the complete item carrying that id |
| `ItemStore.AddedItemIsReadable` | src/main/java/ru/practicum/shareit/item/ItemRepositoryInMemory.java:28-47 | an added item reads back under its new id |
| `ItemStore.Update` | src/main/java/ru/practicum/shareit/item/ItemRepositoryInMemory.java:50-79 | a missing key is NotFound; a different user id is NotFound quoting the payload's ids; otherwise available, name and description are each replaced when given, with id and user id kept |
| `ItemStore.UpdateProperties` | src/main/java/ru/practicum/shareit/item/ItemRepositoryInMemory.java:50-79 | an update keeps the store valid, changes only its own key and is idempotent |
| `ItemStore.GetOwnItems` | src/main/java/ru/practicum/shareit/item/ItemRepositoryInMemory.java:82-86 | exactly the stored items tagged with the user id, each listed once |
| `ItemStore.SearchItem` | src/main/java/ru/practicum/shareit/item/ItemRepositoryInMemory.java:89-95 | exactly the stored available items whose lower-cased name or description contains the lower-cased text, each listed once |
| `ItemStore.SearchIgnoresUser` | src/main/java/ru/practicum/shareit/item/ItemRepositoryInMemory.java:89 | the caller's id does not change what the search finds |
| `ItemStore.AddedItemIsOwn` | src/main/java/ru/practicum/shareit/item/ItemRepositoryInMemory.java:33-86 | an added item is among its user's own items |
| `Stores.Values` | src/main/java/ru/practicum/shareit/user/UserRepositoryInMemory.java:82 | the listing holds exactly the stored values; when no two keys hold the same entity, each is listed once |
| `UserStore.Create` | src/main/java/ru/practicum/shareit/user/UserRepositoryInMemory.java:20-33 | Conflict exactly when some stored user has the e-mail; otherwise the user is stored under the incremented counter, which becomes its id |
| `UserStore.EmailTakenInListing` | src/main/java/ru/practicum/shareit/user/UserRepositoryInMemory.java:89-93 | an e-mail is taken exactly when it is present and some user in the `values()` listing has it; a candidate without an e-mail clashes with nobody |
| `UserStore.CreatePreservesValid` | src/main/java/ru/practicum/shareit/user/UserRepositoryInMemory.java:27-32 | the new key is free, and stored e-mails stay pairwise distinct |
| `UserStore.GetUser` | src/main/java/ru/practicum/shareit/user/UserRepositoryInMemory.java:36-38 | a stored key yields the user carrying that id |
| `UserStore.Update` | src/main/java/ru/practicum/shareit/user/UserRepositoryInMemory.java:41-68 | a missing id is NotFound; then a taken e-mail is Conflict; otherwise e-mail and name are each replaced when given, with the id kept |
| `UserStore.UpdateWithOwnEmailConflicts` | src/main/java/ru/practicum/shareit/user/UserRepositoryInMemory.java:49-54 | re-sending one's own e-mail is refused, because the uniqueness test does not skip the user being updated |
| `UserStore.UpdatePreservesValid` | src/main/java/ru/practicum/shareit/user/UserRepositoryInMemory.java:56-67 | an update keeps the store valid, keeps its keys and keeps every other user |
| `UserStore.UpdatedIsReadable` | src/main/java/ru/practicum/shareit/user/UserRepositoryInMemory.java:36-67 | after an update, reading the id back gives the updated user |
| `UserStore.Delete` | src/main/java/ru/practicum/shareit/user/UserRepositoryInMemory.java:71-78 | NotFound exactly when the id is absent; otherwise exactly that entry is removed |
| `UserStore.DeleteProperties` | src/main/java/ru/practicum/shareit/user/UserRepositoryInMemory.java:71-78 | deleting keeps the store valid, and a second delete of the same id fails |
| `UserStore.GetAll` | src/main/java/ru/practicum/shareit/user/UserRepositoryInMemory.java:81-83 | every stored user, once per key |
| `UserStore.CreatedIsListed` | src/main/java/ru/practicum/shareit/user/UserRepositoryInMemory.java:20-33 | a created user is listed, its e-mail is now taken, and creating the same user again fails |
| `UserService.Create` | src/main/java/ru/practicum/shareit/user/UserServiceImpl.java:20-24 | the table refuses a missing name (`Integrity` on name), a missing e-mail, or an e-mail a row with another id holds; otherwise a payload id naming a stored user overwrites that row and keeps the counter, and any other payload is appended under the next id, which the answer carries |
| `UserService.CreateProperties` | src/main/java/ru/practicum/shareit/user/UserServiceImpl.java:20-24 | in a valid table, sign-up fails exactly on a missing field or an e-mail that a row with a different id holds, and success keeps the table valid |
| `UserService.CreatedUserIsFound` | src/main/java/ru/practicum/shareit/user/UserServiceImpl.java:20-24 | in a valid table the new user's answer carries an id, and reading that id back gives the answer |
| `UserService.GetUser` | src/main/java/ru/practicum/shareit/user/UserServiceImpl.java:42-51 | NotFound "User with id N not found!" exactly when no row has the id; otherwise a DTO of a row with that id |
| `UserService.Update` | src/main/java/ru/practicum/shareit/user/UserServiceImpl.java:27-39 | a missing user is NotFound before any save; otherwise e-mail and name are each replaced when given, with the id kept, unless the table refuses the result |
| `UserService.UpdateWithOwnEmailAccepted` | src/main/java/ru/practicum/shareit/user/UserServiceImpl.java:27-39 | unlike the map-backed store, the table accepts a user re-sending their own e-mail |
| `UserService.SaveUserKeepsValid` | src/main/java/ru/practicum/shareit/user/UserServiceImpl.java:38 | writing back a complete user whose e-mail no other row holds keeps the table valid |
| `UserService.UpdatePreservesValid` | src/main/java/ru/practicum/shareit/user/UserServiceImpl.java:27-39 | an accepted update keeps the table valid |
| `UserService.Delete` | src/main/java/ru/practicum/shareit/user/UserServiceImpl.java:53-56 | a missing id is `EmptyResultDataAccessException` "No class ru.practicum.shareit.user.model.User entity with id N exists!"; otherwise exactly the rows with that id are removed and the counter is kept |
| `UserService.DeletedIsGone` | src/main/java/ru/practicum/shareit/user/UserServiceImpl.java:42-56 | a delete fails exactly when the lookup would fail, and after a delete the user is not found |
| `UserService.DeleteTwiceFails` | src/main/java/ru/practicum/shareit/user/UserServiceImpl.java:53-56 | deleting the same user a second time fails |
| `UserService.GetAll` | src/main/java/ru/practicum/shareit/user/UserServiceImpl.java:59-65 | one DTO per row, in table order, each converting back to its row |
| `ItemRequestService.ItemsFor` | src/main/java/ru/practicum/shareit/request/ItemRequestServiceImpl.java:87-93 | the attached DTOs are exactly the DTOs of the items answering the request |
| `ItemRequestService.GetById` | src/main/java/ru/practicum/shareit/request/ItemRequestServiceImpl.java:33-46 | the caller is checked first (NotFound), then the request (NotFound "Item request with id N not exist"); otherwise the view of a request with that id |
| `ItemRequestService.Create` | src/main/java/ru/practicum/shareit/request/ItemRequestServiceImpl.java:49-58 | NotFound exactly when the requester is missing; otherwise the request is stamped now, linked to the requester and appended under the next id |
| `ItemRequestService.OwnRequests` | src/main/java/ru/practicum/shareit/request/ItemRequestRepository.java:13 | exactly the requester's requests, oldest first |
| `ItemRequestService.OwnRequestsCounts` | src/main/java/ru/practicum/shareit/request/ItemRequestRepository.java:13 | the requester's requests are listed as often as the table holds each, and no other request is listed |
| `ItemRequestService.GetOwnRequests` | src/main/java/ru/practicum/shareit/request/ItemRequestServiceImpl.java:61-68 | NotFound exactly when the user is missing; otherwise position `i` is the view of the `i`-th of the user's own requests, oldest first, so every own request is shown as often as it is stored |
| `ItemRequestService.OthersRequests` | src/main/java/ru/practicum/shareit/request/ItemRequestRepository.java:15-18 | exactly the requests whose requester has an id other than the user's, each as often as in the table, newest first |
| `ItemRequestService.OthersPage` | src/main/java/ru/practicum/shareit/request/ItemRequestServiceImpl.java:74-80 | exactly as many requests as page `from / size` of everybody else's requests holds; request `i` is one of them at rank `page * size + i`, newest first |
| `ItemRequestService.GetAllRequests` | src/main/java/ru/practicum/shareit/request/ItemRequestServiceImpl.java:71-85 | NotFound exactly when the user is missing; otherwise position `i` is the view of request `i` of the page of other users' requests, with the items answering it |
| `ItemRequestService.OwnRequestsNeverBrowsed` | src/main/java/ru/practicum/shareit/request/ItemRequestRepository.java:15-18 | with unique ids, browsing never shows a user one of their own requests |
| `ItemRequestService.EveryOtherRequestIsBrowsed` | src/main/java/ru/practicum/shareit/request/ItemRequestServiceImpl.java:74-80 | every request of another user lies on the page of some `from >= 0`; when its creation time is unique, it is at its rank's offset on every page covering that rank |
| `ItemRequestService.CreatedIsOwn` | src/main/java/ru/practicum/shareit/request/ItemRequestServiceImpl.java:49-68 | a posted request appears, exactly as returned, among the poster's own requests |
| `ItemRequestService.CreatePreservesValid` | src/main/java/ru/practicum/shareit/request/ItemRequestServiceImpl.java:53-55 | posting keeps request ids valid, and only the new row carries the new id |
| `ItemRequestService.CreatedIsReadable` | src/main/java/ru/practicum/shareit/request/ItemRequestServiceImpl.java:33-58 | the poster can read a posted request back under its new id, exactly as returned |
| `Seqs.PageIndex` | src/main/java/ru/practicum/shareit/booking/BookingServiceImpl.java:119 | `from < size ? 0 : from / size` is `from / size`, so the page's first row is at or before `from` and less than `size` rows before it |
| `Seqs.PageStartRoundsDown` | src/main/java/ru/practicum/shareit/item/ItemServiceImpl.java:50 | the page starts at `from` rounded down to a multiple of `size`, and at `from` exactly when `size` divides it |
| `Seqs.PageIndexOfStart` | src/main/java/ru/practicum/shareit/booking/BookingServiceImpl.java:119 | `from = page * size` selects page `page`, so every page can be asked for |
| `Seqs.PageOfSortBy` | src/main/java/ru/practicum/shareit/booking/BookingServiceImpl.java:119-121 | a page of a sorted query holds `PageLength` rows, each from the query at rank `page * size` plus its position, keys ascending |
| `Text.ContainsIff` | src/main/java/ru/practicum/shareit/item/ItemRepositoryInMemory.java:92-93 | `contains` holds exactly when the text occurs at some offset |
| `Tables.Save` | src/main/java/ru/practicum/shareit/booking/BookingServiceImpl.java:82 | `save` of an entity whose id names a stored row overwrites every row with that id and keeps the counter; otherwise the entity is appended under the next id and returned with it; either way the returned entity is stored |
| `Tables.SavedIdIsUnique` | src/main/java/ru/practicum/shareit/booking/BookingServiceImpl.java:82 | with ids within the counter, the saved entity carries an id that no other row shares |
| `Tables.FindUser` | src/main/java/ru/practicum/shareit/booking/BookingServiceImpl.java:53-59 | `findById` on users: empty exactly when no row carries the id; otherwise a stored row with that id |
| `Tables.FindItem` | src/main/java/ru/practicum/shareit/booking/BookingServiceImpl.java:62-68 | `findById` on items: empty exactly when no row carries the id; otherwise a stored row with that id |
| `Tables.FindBooking` | src/main/java/ru/practicum/shareit/booking/BookingServiceImpl.java:210-220 | `findById` on bookings: empty exactly when no row carries the id; otherwise a stored row with that id |
| `Tables.FindRequest` | src/main/java/ru/practicum/shareit/item/ItemServiceImpl.java:65-66 | `findById` on requests: empty exactly when no row carries the id; otherwise a stored row with that id |
| `BookingMapper.ToBooking` | src/main/java/ru/practicum/shareit/booking/BookingMapper.java:18-24 | the booking takes the payload's id and window, and the booker, item and status it is given |
| `BookingMapper.ToBookingDto` | src/main/java/ru/practicum/shareit/booking/BookingMapper.java:26-47 | the response keeps id, window and status; its booker part has the booker's id, name and e-mail; its item part is the item mapper's DTO of the item |
| `ItemMapper.RequestIdOf` | src/main/java/ru/practicum/shareit/item/ItemMapper.java:19 | no request id for an item without a request; otherwise the request's id |
| `ItemMapper.ToInputDto` | src/main/java/ru/practicum/shareit/item/ItemMapper.java:14-22 | the payload has the item's id, name, description and available, and the id of its request if any |
| `ItemMapper.ToOutputDto` | src/main/java/ru/practicum/shareit/item/ItemMapper.java:24-36 | the output has the item's id, name, description, available and request id, with no bookings and no comments |
| `ItemMapper.ToItem` | src/main/java/ru/practicum/shareit/item/ItemMapper.java:38-45 | the item takes the payload's id, name, description and available, the given owner, and no request |
| `CommentMapper.ToComment` | src/main/java/ru/practicum/shareit/item/CommentMapper.java:12-17 | the comment takes the payload's id, text and created, and the given item and author |
| `CommentMapper.ToCommentDto` | src/main/java/ru/practicum/shareit/item/CommentMapper.java:19-27 | the DTO keeps id, text and created, and names the author |
| `UserMapper.ToDto` | src/main/java/ru/practicum/shareit/user/UserMapper.java:9-16 | the DTO has the user's id, name and e-mail |
| `UserMapper.ToUser` | src/main/java/ru/practicum/shareit/user/UserMapper.java:18-20 | the user has the DTO's id, name and e-mail |
| `ItemRequestMapper.ToDto` | src/main/java/ru/practicum/shareit/request/ItemRequestMapper.java:17-23 | the DTO keeps id, description and created, and carries the given items |
| `ItemRequestMapper.ToRequest` | src/main/java/ru/practicum/shareit/request/ItemRequestMapper.java:25-30 | the request has no id, keeps description and created, and has the given requester |
| `BookingMapper.BookingRoundTrip` | src/main/java/ru/practicum/shareit/booking/BookingMapper.java:18-47 | a booking payload comes back with its id and window, the given status, the booker's DTO and the item's DTO |
| `BookingMapper.BookerIsUserDto` | src/main/java/ru/practicum/shareit/booking/BookingMapper.java:31-36 | the booker part of the response is the user mapper's DTO of the booker |
| `ItemMapper.ItemRoundTrip` | src/main/java/ru/practicum/shareit/item/ItemMapper.java:14-45 | item to payload to item keeps id, name, description and available; the owner is the one supplied and no request is attached |
| `ItemMapper.InputDtoRoundTrip` | src/main/java/ru/practicum/shareit/item/ItemMapper.java:14-45 | a complete payload to item to payload keeps every field except `requestId` |
| `CommentMapper.CommentRoundTrip` | src/main/java/ru/practicum/shareit/item/CommentMapper.java:12-27 | payload to comment to payload keeps id, text and created, with the author's name filled in |
| `UserMapper.UserRoundTrip` | src/main/java/ru/practicum/shareit/user/UserMapper.java:9-20 | user to DTO to user loses nothing |
| `UserMapper.DtoRoundTrip` | src/main/java/ru/practicum/shareit/user/UserMapper.java:9-20 | DTO to user to DTO loses nothing |
| `ItemRequestMapper.RequestRoundTrip` | src/main/java/ru/practicum/shareit/request/ItemRequestMapper.java:17-30 | payload to request to payload keeps description and created, drops the id and carries the given items |

## Left out

- HTTP, the REST clients, the request-header identity, logging, and the mapping from exceptions to status codes are not modelled. Only the gateway's reading of `state`, `from` and `size` is.
- The clock: `LocalDateTime.now()` and `current_timestamp` are the parameter `now`, and timestamps are integers.
- Concurrency: the check-then-save sequences in `create` and `approve` run as single steps.
- Java `Long` and `Integer` overflow is not modelled. Ids, counters and `page * size` are unbounded integers.
- `Text.Upper` and `Text.Lower`: `toUpperCase`, `toLowerCase` and SQL `upper` fold ASCII letters only, not the whole of Unicode.
- `ItemRepository.MatchesText`: `%` and `_` inside the search text are taken literally, not as LIKE wildcards.
- `BookingRepository.FindLastBooking`, `BookingRepository.FindNextBooking` and `BookingRepository.FindByBookerIdAndPastState` take the first match in the stated order, or in table order. What the framework does when an `Optional` query matches several rows is not in the code.
- `ItemRepository.SearchItem` and `ItemRequestService.OthersPage` page a query that has no total order (no ORDER BY, or ties on `created`). The model pages the table order or the stable sort.
- `Stores.Values`: `HashMap.values()` is read in ascending key order. The contract states membership, and the count when keys hold distinct entities, but not the order.
- `ItemStore.GetItem` and `UserStore.GetUser` require the key to be present. For a missing key, `Optional.of(null)` throws a NullPointerException, and that crash is not modelled.
- `ItemStore.AddItem` requires `available` to be present, because `!item.getAvailable()` on null throws.
- `ItemStore.Update` requires every stored item to be complete, because `existingItem.getUserId().equals(...)` dereferences the stored user id.
- `ItemMapper.ToItem` and `ItemService.Create` require name, description and available. The entity's fields are non-null here. The gateway validates the create payload against its `OnCreate` group, but that payload class is not part of this model.
- `ItemRequestMapper.ToRequest` requires `created`. The service always stamps it before mapping.
- `ItemService.ItemView` and `ItemService.GetOwnItems` require stored items to carry ids, which every saved row does.
- `ItemService.Create` and `ItemRequestService.Create`: the database's NOT NULL checks on the item and request columns are not modelled. Gateway validation keeps those fields present. The users table's NOT NULL and UNIQUE e-mail constraints are modelled, as `Integrity`.
- `UserService.Create`: a sign-up that the database refuses still draws a value from the identity column, so the next accepted row skips an id. The model advances `lastId` only when a row is appended, so it does not promise the gap.
- `UserService.Delete`: `deleteById` on a missing id throws `EmptyResultDataAccessException`, as Spring Data 2.x does. Newer Spring Data versions ignore a missing id instead.
- `Tables.Save`: a payload id that names no stored row is treated as an insert under the next id, which is what Hibernate's merge of a detached entity does. The entity object the service still holds is not updated: `ItemService.CreateComment` answers with the payload's id, while the row gets the next id.
- `BookingRepository.FindPage`, `ItemRepository.FindAllByOwnerIdOrderById` and `ItemRequestService.OthersPage`: rows with equal sort keys are kept in table order. A database may order ties any way, so the rank clauses only place each row within its block of equal keys.
- `BookingGateway.ReadQuery`: a bound violation is `Invalid` with the names of the broken parameters. The validator's message text is not modelled.
- Bean validation on payloads (`@Future`, `@NotBlank`, `@Email`) is not modelled. No check of start before end, and no overlap check, exists in the services, so none is modelled.
- The duplicate and superseded snapshots are not modelled separately: the server copy of `BookingMapper`, `booking/dto/BookingMapper.java`, the server-side `getEnumState`, and the old entity classes.
- `CommentRepository.findByItemId` is not part of this model's sources. It is modelled as "the comments whose item has that id, in table order".

## Findings

| source | as written | input that shows it | evidently intended | confidence | as-written member | corrected member |
|---|---|---|---|---|---|---|
| src/main/java/ru/practicum/shareit/item/ItemServiceImpl.java:120-137 | eligibility uses `findByBookerIdAndPastState`, which looks for any ended booking of the author on any item, and the comment is filed under that booking's item; the path's `itemId` appears only in the error text | user 2 once rented item 3 (booking from 10 to 20) and comments on item 5 at time 30: the comment is accepted and stored on item 3 | only a booker with an ended booking of item `itemId` may comment, and the comment goes on that item | not executed | `ItemService.CreateComment` (shown by `ItemService.CommentLandsOnAnotherItem`) | `ItemService.CreateCommentOnItem` (proved stricter than the code by `ItemService.OnItemIsStricter`, and shown on its item by `ItemService.CommentOnItemShown`) |
