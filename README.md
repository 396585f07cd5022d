# Inventory page list handling, modelled in Dafny

This project models the client-side list handling of the inventory
("Overall Inventory") page of an administrative web UI. The page holds a list
of products, each with an id, a name, an available count, a low-stock
threshold, a unit price and a list of categories. It does four things with
that list:

- It classifies each product's stock as "Out of Stock", "Low Stock" or
  "In Stock".
- It filters the list by a case-insensitive name search, a case-insensitive
  category search and a status selector.
- It cuts one page of rows out of the list.
- It removes a product after the user confirms its deletion in a dialog.

The product list is loaded from one constant catalogue, and the loading
effect runs again whenever the page or the page size changes. Deleting only
filters the page's two lists and never changes that catalogue. So the next
reload lists a deleted product again; `DeleteThenChangePage` states this.

Layout:

- `js_array.dfy` (module `JsArray`): the JavaScript array operations the page
  uses, `filter`, `some` (as `Any`) and `slice`, on sequences. It also defines the
  subsequence relation and proves what `filter` and `slice` return in its
  terms.
- `ascii_text.dfy` (module `AsciiText`): `toLowerCase` and `toUpperCase` on
  ASCII letters, and `includes`. It also holds the case-insensitive substring
  test that both search boxes use.
- `inventory.dfy` (module `Inventory`): the product record, `getStatus`, the
  filter predicate, the page window and removal by id. It holds the lemmas
  about all four.
- `inventory_page.dfy` (module `ProductManagement`): the page's state as a
  class. The state is the product list, the shown list, page, rows per page,
  the three search inputs, the dialog flag and the pending id. The class has
  one method per handler or effect that changes that state. The class
  invariant says two things. The dialog is open exactly while an id is
  pending. The shown list is a subsequence of the product list.

The `null` of the pending product id is `None` of an `Option`. The status
selector is kept as a string, as in the page, so a selector value that is not
one of the four menu entries is modelled too: it lets nothing through.

## Model

| member | source | states |
|---|---|---|
| `Inventory.GetStatus` | src/pages/ProjectManagement.js:72-76 | "Out of Stock" exactly when the count is 0, whatever the threshold (even 0 or negative); "Low Stock" exactly when the count is non-zero and strictly below the threshold; "In Stock" exactly when it is non-zero and at least the threshold |
| `Inventory.LabelsDistinct` | src/pages/ProjectManagement.js:73-75 | the three status labels are pairwise different, so a label selects exactly one status |
| `Inventory.FilterProducts` | src/pages/ProjectManagement.js:80-88 | every product in the filtered list passes the name, category and status tests |
| `Inventory.FilterProductsSpec` | src/pages/ProjectManagement.js:80-89 | the filtered list is an order-preserving subsequence of the products; a product is in it iff it is in the products and passes all three tests; each passing product occurs as often as in the products, each failing one not at all |
| `Inventory.CategoryMatchNeedsACategory` | src/pages/ProjectManagement.js:82-84 | with an empty category query a product passes the category test iff it has at least one category; a product with no categories fails it for every query |
| `Inventory.UncategorisedNeverListed` | src/pages/ProjectManagement.js:80-88 | a product with no categories is never in the filtered list, whatever the searches and the status |
| `Inventory.SameLoweredQuerySameCategoryMatch` | src/pages/ProjectManagement.js:82-84 | two category queries with the same lower-case form give the same category test result |
| `Inventory.FilterDependsOnLoweredQueries` | src/pages/ProjectManagement.js:81-84 | two name queries with the same lower-case form and two category queries with the same lower-case form give the same filtered list: any change of case in either query, alone or together, leaves the result unchanged |
| `Inventory.FilterIgnoresQueryCase` | src/pages/ProjectManagement.js:81-84 | upper-casing the name query alone, the category query alone or both, or lower-casing both, does not change the filtered list |
| `Inventory.StatusAllKeepsEveryStatus` | src/pages/ProjectManagement.js:85 | with status "All" the filtered list is the list filtered by name and category alone |
| `Inventory.UnknownStatusListsNothing` | src/pages/ProjectManagement.js:85 | a status that is neither "All" nor one of the three labels gives an empty filtered list |
| `Inventory.StatusFiltersPartition` | src/pages/ProjectManagement.js:72-88 | the lengths of the lists filtered by "Out of Stock", "Low Stock" and "In Stock" add up to the length of the list filtered by "All": every listed product falls under exactly one status |
| `Inventory.PageWindow` | src/pages/ProjectManagement.js:59 | the page window holds at most rowsPerPage rows; it is empty when page*rowsPerPage is at or past the end; otherwise it holds min(rowsPerPage, length - page*rowsPerPage) rows; row k is product page*rowsPerPage + k |
| `Inventory.PagesCoverList` | src/pages/ProjectManagement.js:59 | pages 0 to n-1 put one after the other are exactly the first min(n*rowsPerPage, length) products, so paging shows every product once and in order |
| `Inventory.PageWindowIsSubseq` | src/pages/ProjectManagement.js:59 | the page window is a subsequence of the list it is cut from |
| `Inventory.RemoveId` | src/pages/ProjectManagement.js:115-116 | removing by id never makes a list longer |
| `Inventory.RemoveIdSpec` | src/pages/ProjectManagement.js:115-116 | after removing id, no product carries that id; the result is a subsequence of the input; every product with another id occurs as often as before |
| `Inventory.RemoveAbsentId` | src/pages/ProjectManagement.js:115-116 | removing an id that no product carries, or with no id pending (`null`), returns the list unchanged |
| `Inventory.RemoveIdIdempotent` | src/pages/ProjectManagement.js:115-116 | removing the same id twice gives the same list as removing it once |
| `Inventory.RemoveIdKeepsSubseq` | src/pages/ProjectManagement.js:115-116 | if the shown list is a subsequence of the product list, it still is after both lose the same id |
| `JsArray.Filter` | src/pages/ProjectManagement.js:80 | the result of `filter` is no longer than its input and all its elements pass the test |
| `JsArray.Any` | src/pages/ProjectManagement.js:82 | `some` is true iff some element passes the test, so it is false on an empty list |
| `JsArray.Slice` | src/pages/ProjectManagement.js:59 | `slice(begin, end)` has length 0 when end <= begin or begin >= length, and min(end, length) - begin otherwise; element k is element begin + k of the input |
| `JsArray.FilterSubseq` | src/pages/ProjectManagement.js:80 | what `filter` returns is an order-preserving subsequence of its input |
| `JsArray.FilterCount` | src/pages/ProjectManagement.js:80 | `filter` keeps each passing element as often as it occurs and drops each failing one entirely |
| `AsciiText.LowerStr` | src/pages/ProjectManagement.js:81 | `toLowerCase` keeps the length and lowers each ASCII capital, leaving all other characters as they are |
| `AsciiText.Includes` | src/pages/ProjectManagement.js:81 | `includes` is true iff the needle occurs at some position of the text; the empty needle occurs everywhere |
| `AsciiText.EmptyQueryMatches` | src/pages/ProjectManagement.js:81-83 | an empty search string matches every name and every category |
| `AsciiText.MatchDependsOnLoweredForms` | src/pages/ProjectManagement.js:81-83 | texts with the same lower-case form and queries with the same lower-case form give the same case-insensitive match, for text and query separately |
| `AsciiText.MatchIgnoresCase` | src/pages/ProjectManagement.js:81-83 | upper-casing or lower-casing the whole query or the whole text does not change the case-insensitive match |
| `ProductManagement.InventoryPage.constructor` | src/pages/ProjectManagement.js:32-40 | the catalogue is fixed once; initial state: empty lists, page 0, 10 rows per page, empty searches, status "All", dialog closed, no pending id |
| `ProductManagement.InventoryPage.FetchProducts` | src/pages/ProjectManagement.js:56-69 | the constant catalogue becomes the product list and its current page window the shown list; the page position, searches and dialog are unchanged and the invariant holds |
| `ProductManagement.InventoryPage.ApplySearch` | src/pages/ProjectManagement.js:79-90 | the shown list becomes the filtered product list; it holds exactly the products that pass all three tests; everything else is unchanged |
| `ProductManagement.InventoryPage.SetSearchName` | src/pages/ProjectManagement.js:161 | the name search takes the typed value |
| `ProductManagement.InventoryPage.SetSearchCategory` | src/pages/ProjectManagement.js:169 | the category search takes the typed value |
| `ProductManagement.InventoryPage.SetStatus` | src/pages/ProjectManagement.js:177 | the status selector takes the chosen value |
| `ProductManagement.InventoryPage.HandleChangePage` | src/pages/ProjectManagement.js:93 | the page becomes the requested page and rows per page is unchanged |
| `ProductManagement.InventoryPage.HandleChangeRowsPerPage` | src/pages/ProjectManagement.js:94-97 | rows per page takes the new value and the page is always reset to 0; the lists are unchanged |
| `ProductManagement.InventoryPage.HandleOpenDeleteDialog` | src/pages/ProjectManagement.js:100-103 | the product id becomes pending and the dialog opens |
| `ProductManagement.InventoryPage.HandleCloseDeleteDialog` | src/pages/ProjectManagement.js:106-109 | the pending id is cleared and the dialog closes |
| `ProductManagement.InventoryPage.HandleDeleteProduct` | src/pages/ProjectManagement.js:112-121 | on success both lists lose exactly the products with the pending id. No product with that id remains. Every other product remains, as often as before and in order. The dialog ends closed with no id pending. On failure nothing changes. The invariant holds either way |
| `ProductManagement.DeleteThenChangePage` | src/pages/ProjectManagement.js:59-60 | after a confirmed delete, a page change and the reload it triggers, the product list is the catalogue again, so every product with the deleted id is listed again |
| `ProductManagement.ShownProductsAreListed` | src/pages/ProjectManagement.js:203 | in every valid page state, each shown product is a product of the full list |

## Left out

- The stats request (`GET /api/dashboard-stats`) and the stats cards are left out. They are network I/O and rendering that depends on object key order.
- The `DELETE /api/products/:id` request is a boolean parameter of `HandleDeleteProduct`: success, or a failure that is only logged and leaves the state unchanged.
- The mock catalogue is built with `Math.random` and `toFixed` prices. It is a constant field set by the constructor instead. The price is kept as display text.
- The order in which the framework runs the loading effect and the search effect is left out. The two effects are the separate methods `FetchProducts` and `ApplySearch`. So the model does not say which list the table shows after a page change while a search is active.
- The `catch` branch of the loading effect (lines 62-65) is left out: the slice it guards cannot throw.
- ProductManagement.InventoryPage.HandleChangeRowsPerPage takes the page size already as a number. The `parseInt` of the selected option ("10", "25" or "50") is not modelled.
- ProductManagement.InventoryPage.HandleChangePage takes a non-negative page. Negative page or size values would make `slice` count from the end, and they are not modelled.
- AsciiText.LowerStr: `toLowerCase` and `includes` are modelled for ASCII letters only. Unicode case mapping is not modelled.
- ProductManagement.InventoryPage.HandleDeleteProduct is one atomic step. In the page it is `async`: it updates the lists the page had when Delete was pressed, after the request returns, and then closes whatever dialog is open at that moment. A Cancel, another dialog opening or a page change while the request is pending would interleave with it. That interleaving is not modelled.
- Inventory.GetStatus takes the available count and the low-stock threshold as integers. In JavaScript they are numbers that may be fractional, NaN or infinite. The page's own data are whole numbers (`Math.floor`), and other values are not modelled.
- Navigation to the add and edit screens, and all rendering and styling, are left out.
- The order-creation dialog, the order-edit page and the dashboard are presentation only. They are not part of this model.
