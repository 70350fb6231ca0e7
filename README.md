# TableTap views, modelled in Dafny

TableTap is a restaurant ordering application. A restaurant owner builds menus of categories and
items through JSON endpoints. A customer at a table browses the active menu and posts a basket
that becomes an order. Staff follow the orders on a dashboard, and an administrator manages
subscriber accounts. This project models the views that read and write the database
(`tabletapapp/views.py`) and the subscriber forms (`tabletapapp/forms.py`), and proves what they
do to the stored rows.

The database is a value `Schema.Db` with one sequence of rows per table. The row with primary key
k sits at position k - 1, and a new row is appended with key |rows| + 1. Each view is a function
from the database, the request and the session's user to the new database and the response.
The properties are lemmas about those functions. The views that change rows are also methods of
`Store.Store`, a class with one mutable field per table. Each method is proved to leave exactly
the state, and to give exactly the response, that the matching function prescribes. The
reconciliation loops of `save_menu_data` and the basket walk of `submit_order` are `while` loops
there, with their invariants.

Modules:

- `Basics`: Option, keys, money, HTTP verbs.
- `Text`: `str.strip`, `startswith`, `split`, and `icontains` (ASCII case folding).
- `Schema`: rows, lookups, the consistency invariant `Valid`, and bulk deactivation.
- `Sorting`: `order_by` as a stable sort.
- `MenuSync`: `save_menu_data`, its loops, and what it does to the menu's categories.
- `MenuSettle`: what `save_menu_data` does to each item of the menu, and the items it creates.
- `MenuScenarios`: two concrete runs of `save_menu_data`.
- `MenuAdmin`: `create_menu` and `update_menu`.
- `OrderSubmission`: `submit_order`.
- `Projections`: `get_menus`, `order`, `get_order_details` and `table_view`.
- `OrderRoundTrip`: what the order views report for an order just placed.
- `Accounts`: `register_view` with Django's email normalisation, the subscriber search and subscriber archiving.
- `Forms`: `CustomUserCreationForm` and `CustomUserUpdateForm`.
- `Store`: the stateful class.

One might expect the items under a category left out of a `save_menu_data` submission to become
inactive. The code only tombstones the menu's categories (views.py:493), and the items of the
categories that are submitted (views.py:511). `MenuScenarios.DroppedCategoryKeepsItems` shows
this on a concrete menu.

`models.py` is not part of this model. The defaults it would give are module constants:

- A new order has status `"pending"` (`OrderSubmission.InitialStatus`).
- A new menu is active (`MenuAdmin.NewMenuActive`).
- `updated_at` is set on creation and on every `save()` of a menu or an order.
- `QuerySet.update(...)` does not touch `updated_at`.
- Rows that tie under `order_by` come out in key order.

## Model

| member | source | states |
|---|---|---|
| Text.StripMeaning | tabletapapp/views.py:515-517 | `strip()` leaves the contiguous middle of the string, with only whitespace around it, neither starting nor ending with whitespace |
| Text.StripStartMeaning | tabletapapp/views.py:515-517 | stripping the front removes exactly a whitespace prefix and leaves a suffix that does not start with whitespace |
| Text.StripEndMeaning | tabletapapp/views.py:515-517 | stripping the back removes exactly a whitespace suffix and leaves a prefix that does not end with whitespace |
| Text.StripEmptyIffBlank | tabletapapp/views.py:521-522 | a stripped name is empty exactly when the name was empty or all whitespace, which is when `if not item_name` skips it |
| Text.StripIdempotent | tabletapapp/views.py:408-409 | stripping a stripped value changes nothing |
| Text.SplitJoin | tabletapapp/views.py:540 | the parts that `split(';base64,')` gives, joined back with the marker, are the original data URL |
| Text.LowerIdempotent | tabletapapp/views.py:241-244 | lower-casing a lower-cased string changes nothing |
| Schema.FirstWhere | tabletapapp/views.py:122 | `.first()` on an unordered query is the lowest key that matches, and no lower key matches |
| Schema.FindCategoryMeaning | tabletapapp/views.py:498-502 | the category lookup by (menu, name) finds a row with that menu and name, or there is none |
| Schema.FindCategoryAt | tabletapapp/views.py:498-502 | with unique (menu, name) keys, the lookup finds the one row that carries the key |
| Schema.FindTableMeaning | tabletapapp/views.py:292-295 | the table lookup by number finds a row with that number, or there is none |
| Schema.DeactivateCategoriesOf | tabletapapp/views.py:493 | the menu's categories are made inactive; every other category row is left as it was |
| Schema.DeactivateItemsOf | tabletapapp/views.py:511 | the category's items are made inactive; every other item row is left as it was |
| Sorting.SortBy | tabletapapp/views.py:352 | `order_by` returns the same rows, rearranged so that the keys are in order |
| MenuSync.ApplyItem | tabletapapp/views.py:514-570 | one item spec changes at most the items table |
| MenuSync.ApplyItemCases | tabletapapp/views.py:514-570 | a blank name is skipped; a spec with a name whose image is a data URL that `split(';base64,')` does not cut into exactly two parts (`ImageUnpacks` fails) raises before anything is saved; an id naming an item of this menu overwrites that item's name, price, description and image and reactivates it, keeping its category; any other spec appends an active item under the current category |
| MenuSync.ApplyItemsFrom | tabletapapp/views.py:514-570 | the item loop changes only the items table and removes no row |
| MenuSync.ApplyItemsFromEffect | tabletapapp/views.py:514-570 | whether it finishes or not, the item loop moves no item to another category and deactivates none; it leaves alone items of other menus and items that no remaining spec names by id; every item it creates is active under the current category |
| MenuSync.ActivateCategory | tabletapapp/views.py:498-508 | the category named by the submission is found or created, and is then active at its submission index; no other row changes; unique (menu, name) keys stay unique |
| MenuSync.ApplyCategory | tabletapapp/views.py:496-570 | one category of the submission changes only the categories and items tables |
| MenuSync.ApplyCategoriesFrom | tabletapapp/views.py:496-570 | the category loop changes only the categories and items tables |
| MenuSync.SaveMenuData | tabletapapp/views.py:477-577 | without a user, for a method other than POST, or for a menu that is not the caller's, it answers 401, 405 or 404 and writes nothing; only the menu's owner gets success or a 500; users, menus, tables, orders and lines never change |
| MenuSync.ReconcileEffect | tabletapapp/views.py:493-570 | for the owner, the reconciliation keeps the store consistent and leaves alone what `Untouched` names; when it finishes, every submitted category is live at its index, the menu's categories are active exactly when submitted, an item left under a submitted category that no spec from that category on names is inactive, and every new item is active |
| MenuSync.SaveMenuDataFrame | tabletapapp/views.py:477-577 | every call keeps the store consistent; it never removes a row, never moves an item to another category, never changes another menu's rows, and never deactivates an item whose category was not submitted; on success the menu's categories are settled as `ReconcileEffect` describes |
| MenuSync.ApplyItemsFromOk | tabletapapp/views.py:514-570 | the item loop finishes exactly when none of its specs raises |
| MenuSync.ApplyCategoriesFromOk | tabletapapp/views.py:496-570 | the category loop finishes exactly when no item spec of the remaining categories raises |
| MenuSync.SaveMenuDataSucceeds | tabletapapp/views.py:477-577 | the answer is success exactly when the owner posts and no item spec has a data URL that fails to unpack |
| MenuSettle.LastInMeaning | tabletapapp/views.py:514-548 | the last spec of a category that writes an item (a name that is not blank and the item's id, and with `paint` a data URL too) is found exactly when one exists, and no later spec writes it |
| MenuSettle.ReplaySpecsMeaning | tabletapapp/views.py:514-548 | one category's specs leave an item as it was when none names it; otherwise it ends active with the name, price and description of the last spec that names it, and the picture of the last one that sends a data URL, or its own |
| MenuSettle.ReplayCatsMeaning | tabletapapp/views.py:493-548 | over the whole submission an item keeps its category; under a submitted category it ends active exactly when a spec at or after that category names it; under any other category it ends active when it was or when some spec names it; its fields come from the last spec that names it |
| MenuSettle.ItemsFromReplay | tabletapapp/views.py:514-548 | when no spec raises, the item loop of one category leaves each stored item of the menu as the replay of its specs prescribes: overwritten by each spec that names it, in order |
| MenuSettle.ItemsFromCreates | tabletapapp/views.py:550-570 | when no spec raises and every id is at most the number of rows stored before the call, the item loop of one category appends exactly one active row per spec whose name is not blank and whose id names no item of the menu stored before the call, in spec order, under that category, with the spec's stripped fields |
| MenuSettle.ReconcileItems | tabletapapp/views.py:493-570 | the reconciliation succeeds exactly when no spec raises, and then every stored item of the menu is settled as its replay says and the appended rows are exactly the created ones |
| MenuSettle.SaveMenuDataEffect | tabletapapp/views.py:477-577 | every call keeps the store consistent and leaves alone what `Untouched` names; on success the categories are settled and every stored item of the menu ends active exactly when a spec at or after its submitted category names it, with the last such spec's fields; the new rows are one per spec that names no item of the menu |
| MenuScenarios.DroppedCategoryKeepsItems | tabletapapp/views.py:493-511 | a submission of only a new category tombstones the old categories but leaves their items active |
| MenuScenarios.ItemListedUnderEarlierCategoryEndsInactive | tabletapapp/views.py:511-548 | an item that an earlier category lists by id is updated in place under its own category, and is then deactivated when its own category is processed later with no spec naming it |
| MenuAdmin.PutMenu | tabletapapp/views.py:441-458 | an edit never changes the owner or the archive flag |
| MenuAdmin.ArchiveMenu | tabletapapp/views.py:465-469 | archiving never changes the owner |
| MenuAdmin.CreateMenuOutcome | tabletapapp/views.py:388-430 | a menu is created exactly when an existing user POSTs a name that is not blank; refusals, in the order 401, 405, 500 and 400, write nothing |
| MenuAdmin.CreateMenuStores | tabletapapp/views.py:405-425 | the new menu gets the next key, belongs to the caller, is not archived, and has the stripped name and description; the response echoes what was stored; no other table changes |
| MenuAdmin.CreatedNameTrimmed | tabletapapp/views.py:408-412 | a created menu's name is not empty and neither starts nor ends with whitespace |
| MenuAdmin.CreateMenuValid | tabletapapp/views.py:414-418 | creating a menu keeps the store consistent |
| MenuAdmin.UpdateMenuOutcome | tabletapapp/views.py:434-474 | 401 without a user; 404 for any method when the menu is not the caller's; 405 for a method other than PUT and DELETE; success exactly for PUT or DELETE on the caller's menu; refusals write nothing |
| MenuAdmin.UpdateMenuPut | tabletapapp/views.py:441-460 | PUT changes only that menu: the stripped name unless it is blank, the stripped description always, `active` only when sent; owner and archive flag stay |
| MenuAdmin.UpdateMenuDelete | tabletapapp/views.py:465-470 | DELETE sets only the archive flag and the save time; archiving twice is archiving once |
| MenuAdmin.UpdateMenuDeleteIgnoresBody | tabletapapp/views.py:465-472 | the body of a DELETE is not read |
| MenuAdmin.UpdateMenuValid | tabletapapp/views.py:434-474 | editing or archiving a menu keeps the store consistent |
| OrderSubmission.FirstIncomplete | tabletapapp/views.py:306-314 | the walk stops at the first index missing a name, quantity or price, and every index before it is complete |
| OrderSubmission.AcceptedLines | tabletapapp/views.py:307-333 | the walk creates at most one line per basket line |
| OrderSubmission.FindOrCreateTable | tabletapapp/views.py:292-295 | the table with the number is returned unchanged when it exists; otherwise an active table owned by the caller is appended |
| OrderSubmission.AcceptedLine | tabletapapp/views.py:316-333 | a basket line yields an order line exactly when its id names an active item; the line carries the submitted quantity and price, not the item's current price |
| OrderSubmission.AcceptedLinesSound | tabletapapp/views.py:307-333 | every created line belongs to the new order, names an active item, and carries the quantity and price of a basket line that named it |
| OrderSubmission.AcceptedLinesComplete | tabletapapp/views.py:307-333 | every basket line before the stop that names an active item yields its order line |
| OrderSubmission.SubmitOrderRefusal | tabletapapp/views.py:281-345 | a request that is not a POST, or lacks the table number or the total, is refused with the matching message and writes nothing; every other request is accepted |
| OrderSubmission.SubmitOrderEffect | tabletapapp/views.py:281-343 | an accepted request adds one order with the submitted total, the caller and the initial status, on the table with that number (created if missing); it then appends the accepted lines; nothing else changes |
| OrderSubmission.FindOrCreateKeepsUnique | tabletapapp/views.py:292-295 | `get_or_create` on the table number never makes a second table with a number already taken |
| OrderSubmission.SubmitOrderValid | tabletapapp/views.py:281-333 | submitting keeps the store consistent, with table numbers unique |
| OrderSubmission.RedirectRaisesAfterWriting | tabletapapp/views.py:335-343 | a client that does not accept JSON gets a 500 from the code as written, though the order is stored; the intended view redirects it to its table |
| OrderSubmission.JsonClientUnaffected | tabletapapp/views.py:335-340 | a client that accepts JSON gets the same answer from both versions |
| OrderRoundTrip.SubmittedOrderLines | tabletapapp/views.py:305-333 | the lines listed for a freshly placed order are exactly the accepted basket lines, in basket order |
| OrderRoundTrip.SubmittedOrderDetails | tabletapapp/views.py:588-626 | the details of a freshly placed order carry the submitted total, and one line per accepted basket line with its quantity, price and subtotal; the dashboard counts the sum of the accepted quantities |
| Projections.IdsWhere | tabletapapp/views.py:357 | `.filter(...)` lists exactly the keys of the rows that match, in increasing key order |
| Projections.OwnMenuIds | tabletapapp/views.py:352 | the listed menus are exactly the caller's menus that are not archived, most recently updated first |
| Projections.LiveCategoryIds | tabletapapp/views.py:357 | the listed categories are exactly the menu's active categories, in display order |
| Projections.LiveItemIds | tabletapapp/views.py:368 | the listed items are exactly the category's active items |
| Projections.GetMenus | tabletapapp/views.py:347-385 | 401 exactly without a user; otherwise one entry per listed menu, in the listed order |
| Projections.GetMenusShows | tabletapapp/views.py:352-384 | every menu shown is the caller's and not archived, and every such menu is shown |
| Projections.GetMenusNewestFirst | tabletapapp/views.py:352 | the menus are shown most recently updated first |
| Projections.LineIdsOf | tabletapapp/views.py:594 | the order's lines are exactly the lines that reference it |
| Projections.LineViewOf | tabletapapp/views.py:603-608 | a line is reported with its quantity, its captured price, and a subtotal of price times quantity |
| Projections.OrderIdsNewestFirst | tabletapapp/views.py:76 | the dashboard lists every order, most recently updated first |
| Projections.DashboardRowOf | tabletapapp/views.py:81-111 | a dashboard row holds the order's details and the sum of its lines' quantities |
| Projections.OrdersDashboard | tabletapapp/views.py:73-114 | login is required; then there is one row per order, newest first |
| Projections.GetOrderDetails | tabletapapp/views.py:587-626 | 405 exactly for a method other than GET; 404 with "Order not found" exactly when there is no such order; otherwise the order's details |
| Projections.TableView | tabletapapp/views.py:120-139 | "No active menu available" exactly when no menu is both active and not archived; otherwise the page shows the lowest-keyed such menu with its active categories in display order |
| Accounts.RegisterOutcome | tabletapapp/views.py:143-180 | a method other than POST renders the form; the first failing check, in the order all fields, passwords match, username free, email free, gives its message and writes nothing; otherwise exactly one ordinary, unarchived user is appended with the submitted name and password and the normalised email |
| Accounts.LastAt | tabletapapp/views.py:172 | the position where `rsplit("@", 1)` cuts an address is its last '@', and there is none when the address has no '@' |
| Accounts.NormalizeEmailIdempotent | tabletapapp/views.py:172 | normalising a normalised address changes nothing |
| Accounts.RegisterKeepsUnique | tabletapapp/views.py:161-172 | sign-up keeps usernames unique |
| Accounts.EmailCheckMissesDomainCase | tabletapapp/views.py:166-172 | the email check compares the address as typed with the stored, normalised ones, so with "a@b" stored, signing up with "a@B" succeeds and stores a second user with the same email |
| Accounts.RegisterValid | tabletapapp/views.py:172 | sign-up keeps the store consistent |
| Accounts.UsersFrom | tabletapapp/views.py:238-244 | the users past a position that the search admits, in increasing key order |
| Accounts.SubscriberSearch | tabletapapp/views.py:237-245 | an empty search lists every user; otherwise it lists exactly the users whose username or email contains the search, ignoring case, in key order; archived users are included |
| Accounts.EmptySearchListsAll | tabletapapp/views.py:238-240 | an empty search lists every key from 1 up, in order |
| Accounts.SearchIgnoresCase | tabletapapp/views.py:241-244 | searching a spelling and its lower-case form gives the same list |
| Accounts.ArchiveSubscriberEffect | tabletapapp/views.py:274-279 | 404 exactly when there is no such user, and then nothing is written; otherwise only that user's archive flag is set; archiving twice is archiving once; the user stays in the subscriber search |
| Accounts.ArchiveSubscriberValid | tabletapapp/views.py:274-277 | archiving keeps the store consistent |
| Forms.CleanCreationRule | tabletapapp/forms.py:33-40 | the creation form rejects exactly when both passwords are given and differ; otherwise it passes the cleaned data on unchanged, even with a password missing |
| Forms.CleanUpdateRule | tabletapapp/forms.py:57-65 | the update form accepts when neither password is given; when either is given, it accepts exactly when the two are equal |
| Forms.UpdateStricterThanCreation | tabletapapp/forms.py:33-65 | every password pair the update form accepts, the creation form accepts too; a single password left out separates them |
| Forms.SaveCreationRule | tabletapapp/forms.py:42-47 | the creation form always sets the password from `password1` and keeps the other fields; the user is stored with `commit` and nothing is stored without it |
| Forms.SaveUpdateRule | tabletapapp/forms.py:67-74 | the update form changes the password only when `password1` is given and keeps every other field; with `commit` it writes exactly that user's row, and without it nothing |
| Forms.UpdateStoresConfirmedPassword | tabletapapp/forms.py:57-74 | a password that the update form accepted and stored is the one typed twice |
| Forms.SaveValid | tabletapapp/forms.py:42-74 | saving either form keeps the store consistent |
| Store.Store.SetItem | tabletapapp/views.py:545 | saving an existing item rewrites that row and nothing else |
| Store.Store.AddItem | tabletapapp/views.py:570 | saving a new item appends it and changes nothing else |
| Store.Store.SaveItem | tabletapapp/views.py:514-570 | one pass of the item loop leaves the state, and reports success or failure, as `MenuSync.ApplyItem` prescribes |
| Store.Store.StoreItem | tabletapapp/views.py:524-570 | a spec with a name and an image that unpacks updates or creates, as `MenuSync.ApplyItem` prescribes |
| Store.Store.UpdateItem | tabletapapp/views.py:526-545 | the update branch in place, as `MenuSync.ApplyItem` prescribes |
| Store.Store.CreateItem | tabletapapp/views.py:550-570 | the create branch in place, as `MenuSync.ApplyItem` prescribes |
| Store.Store.SaveMenuData | tabletapapp/views.py:477-577 | the nested loops leave the state, and give the response, that `MenuSync.SaveMenuData` prescribes |
| Store.Store.SubmitOrder | tabletapapp/views.py:281-345 | leaves the state, and gives the response, that `OrderSubmission.SubmitOrder` prescribes |
| Store.Store.TableNumbered | tabletapapp/views.py:292-295 | find-or-create of the table in place; only the tables change |
| Store.Store.AddOrderLines | tabletapapp/views.py:305-333 | the `while True` walk appends exactly the accepted lines of the basket lines before the first incomplete one; only the lines change |
| Store.Store.CreateMenu | tabletapapp/views.py:388-430 | leaves the state, and gives the response, that `MenuAdmin.CreateMenu` prescribes |
| Store.Store.UpdateMenu | tabletapapp/views.py:434-474 | leaves the state, and gives the response, that `MenuAdmin.UpdateMenu` prescribes |
| Store.Store.Register | tabletapapp/views.py:143-180 | leaves the state, and gives the response, that `Accounts.Register` prescribes |
| Store.Store.ArchiveSubscriber | tabletapapp/views.py:274-279 | leaves the state, and gives the response, that `Accounts.ArchiveSubscriber` prescribes |
| Store.Store.SaveCreationForm | tabletapapp/forms.py:42-47 | leaves the state, and returns the user, that `Forms.SaveCreation` prescribes |
| Store.Store.SaveUpdateForm | tabletapapp/forms.py:67-74 | leaves the state, and returns the user, that `Forms.SaveUpdate` prescribes |

## Findings

| source | as written | input that shows it | evidently intended | confidence | as-written member | corrected member |
|---|---|---|---|---|---|---|
| tabletapapp/views.py:343 | the redirect calls `reverse`, but the module imports only `reverse_lazy`, so a NameError becomes a 500 after the table, the order and its lines are saved | a POST with `table` and `total_price` from a client that does not accept JSON | redirect to the table page with `?order_success=true` | high; not executed | OrderSubmission.SubmitOrderAsWritten (see OrderSubmission.RedirectRaisesAfterWriting) | OrderSubmission.SubmitOrder |

## Left out

- Request parsing is not modelled. JSON and form bodies arrive already parsed: keys and amounts as integers, absent or empty fields as `None`. Malformed JSON, a non-numeric id, price or quantity, a null name or price, and the other exceptions these raise (a 500) are not modelled.
- In `submit_order`, an `item_id_i` that is present but empty or not a number makes `MenuItem.objects.get` raise `ValueError` (views.py:318). Nothing catches it, so the call answers 500 after the order and the earlier lines are stored. The model has no value for such an id: an absent id is `None` and finds no item.
- In `update_menu`, `bool(menu_active)` (views.py:456) makes any non-empty value true, the string "false" included. The model receives `active` as an already parsed boolean.
- Money is an integer number of minor units. `float(...)` in the responses and decimal rounding are not modelled.
- Dates are not modelled: `strftime`, and the date and time columns of the order views. `updated_at` is an integer clock reading passed in as `now`.
- Image decoding is not modelled. A data URL is stored as given. `base64.b64decode` failures, file naming with `uuid4`, and `image.url` are not modelled. Only the `split(';base64,')` unpacking error is.
- Special instructions are not modelled (views.py:285, 302). The model assumes the `Order` model has the column, so a posted value would be stored; nothing in the modelled views reads it back.
- The redirect at views.py:343 is modelled as `BackToTable` in `OrderSubmission.SubmitOrder`. Its failure as written is kept as a finding.
- Concurrency and transactions are not modelled: each view runs alone. A `save_menu_data` call that raises halfway keeps the writes made before the error, as Django's autocommit does.
- Templates, flash messages, redirects and pagination are not modelled. They are rendering only, including `paginate_by = 5` at views.py:226.
- The permission hooks `test_func` and `handle_no_permission` (views.py:228-235) are not modelled. `ManageSubscribersView` does not mix in `UserPassesTestMixin`, so they are never called.
- `login_view`, `logout_view`, `index`, `qrcode`, `menu_list`, `generate_menu` and the subscriber create and update views are outside the modelled core.
- In `register_view`, an exception from `create_user` (views.py:174-177) is not modelled.
- Password hashing is not modelled: `Hashed(raw)` stands for the hash of `raw`.
- Text.Lower: lower-cases ASCII letters only. Django's `icontains` folds case per the database collation.
- Sorting.SortBy: sorts stably, so rows that tie keep key order. The database promises no order for ties.
- Projections.OrdersDashboard: reports the table's key, as `order.table.id` does. The table number is not reported, because `hasattr(order.table, 'id')` always holds.
- Projections.IdsWhere: lists keys in increasing order. `.filter(...)` without `order_by` promises no order; key order is the model's choice, the order a scan by primary key gives. Projections.LiveItemIds and Projections.LineIdsOf rest on it.
- Accounts.UsersFrom: lists keys in increasing order, which `CustomUser.objects.all()` and `.filter(...)` do not promise; the same choice holds for Accounts.SubscriberSearch and Accounts.EmptySearchListsAll.
- OrderRoundTrip.SubmittedOrderLines: "in basket order" holds because the lines are listed in key order, the model's choice for `order.items.all()`.
- Accounts.RegisterKeepsUnique: promises unique usernames only. Emails need not stay unique, because the check compares the typed address with the normalised stored ones (`Accounts.EmailCheckMissesDomainCase`).
- Accounts.RegisterOutcome: stores the username as typed. `create_user` also applies NFKC normalisation to it (`AbstractBaseUser.normalize_username`), which is not modelled; the model assumes `CustomUser` keeps Django's `UserManager`, whose `normalize_email` it does model.
- MenuSettle.SaveMenuDataEffect: characterises the created rows only when every submitted id is at most the number of stored items. An id beyond them would name a row created earlier in the same call, which then is updated rather than created; that case is not characterised.
