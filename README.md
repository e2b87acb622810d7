# Order service and page options, modelled in Dafny

This project models the order core of a package-subscription back end.

- **Packages** form a forest through `parentId`.
- **Ordering.** A user buys a package (a `create` order). Later they renew or upgrade what they bought (`renew` and `upgrade` orders). Each `renew` and `upgrade` order refers to the newest completed order of the subscription: the order the purchased package currently points at.
- **Upgrade rule.** An upgrade is allowed only to a package that is a strict ancestor, in the package tree, of the package currently held. The descendants of the target are collected by a breadth-first walk (`getAllChildren`).
- **Payment callback.** When the payment gateway reports an order `completed`:
  - a `create` order adds a purchased-package record: a snapshot of the package with every service's usage counter at zero, expiring `duration` months from now;
  - a `renew` order moves the expiry of the existing record forward by the package's duration, counted from the old expiry;
  - an `upgrade` order rewrites the record with the new package's snapshot and moves the expiry the same way.
- **Listings.** Orders are listed per user or for an administrator, one page at a time. The page options have a page number, a page size and a sort order, with defaults and bounds.

Files:

| file | module | contents |
|---|---|---|
| `wrappers.dfy` | `Wrappers` | `Option`, `Result` |
| `package_tree.dfy` | `PackageTree` | packages; reachability in the parent forest; the breadth-first walk `AllChildren` and its proof |
| `lifecycle.dfy` | `Lifecycle` | orders; purchased packages; the effect of a payment callback on the purchased-package store (`CompletionEffect`) and its properties |
| `order_service.dfy` | `Orders` | class `OrderService`, which holds the three stores and implements `Create`, `Upgrade`, `Renew` and `UpdateFromPaymentService` |
| `pagination.dfy` | `Pagination` | page options: defaults, bounds and `skip` |
| `order_listing.dfy` | `OrderListing` | the user and admin filters, the page window and the page count |

The stores are in memory:

- the packages table is a sequence (`catalog`);
- the orders table is a map from order id;
- the purchased-package store is a sequence in insertion order, so that "first record with this order id" and "every record with this order id" keep their meaning.

Ids that the databases generate come from counters. Dates are whole months: `AddMonths(d, n) = d + n`. The current time is a parameter.

The breadth-first walk is proved to terminate only when the parent relation is acyclic. `OrderService.Valid()` requires the catalog to be well formed:

- ids are unique;
- every parent exists;
- no package is its own ancestor.

The order type and status that the schema gives a new `create` order are not visible in the service. They are constants of the class (`defaultKind`, `initialStatus`). `upgrade` and `renew` take the type from the caller.

## Model

| member | source | states |
|---|---|---|
| PackageTree.AllChildren | src/order/order.service.ts:157-176 | The result holds exactly the packages reachable from the parent by following child edges one or more times. The parent itself is not included, and no package appears twice. Every package comes after its parent in the result (the order in which the walk discovers packages). The loop terminates on an acyclic forest. |
| PackageTree.Find | src/order/order.service.ts:31-42 | The package lookup by id finds a package with that id when one exists. It returns nothing exactly when no package has the id. |
| PackageTree.Children | src/order/order.service.ts:166-168 | The children query returns exactly the catalog's packages whose parent is the given id. |
| PackageTree.FindMember | src/order/order.service.ts:31-35 | With unique ids, looking up a catalog package's id yields that package. |
| PackageTree.AncestorHasChild | src/order/order.service.ts:157-176 | A package n >= 1 levels below an ancestor has, n-1 levels up, a catalog package that is a direct child of that ancestor. The walk descends through this child. |
| PackageTree.LeafHasNoDescendants | src/order/order.service.ts:111-121 | A package without children has no descendants, so an upgrade to a leaf always fails. |
| PackageTree.MissingPackageHasNoDescendants | src/order/order.service.ts:111-121 | An id that is not in the catalog has no descendants, so an upgrade to a nonexistent package always fails. |
| PackageTree.DescendantsExist | src/order/order.service.ts:157-176 | Every descendant the walk can report is a catalog package. |
| PackageTree.AncestorAtAdd | src/order/order.service.ts:157-176 | Proof helper for the descendant relation. Going m levels up and then n more levels up is the same as going m+n levels up. |
| PackageTree.DescendantTransitive | src/order/order.service.ts:111-121 | The descendant relation is transitive: a descendant of a descendant of the target is itself a valid upgrade source. |
| PackageTree.DescendantAntisymmetric | src/order/order.service.ts:111-121 | In an acyclic catalog, if a is a descendant of b then b is not a descendant of a, so upgrading back down is refused. |
| PackageTree.AncestorsFormChain | src/order/order.service.ts:111-121 | Two ancestors of the same package are comparable: one is a descendant of the other. |
| PackageTree.DistinctBound | src/order/order.service.ts:161-173 | Proof helper for the walk's termination. A repetition-free sequence drawn from another has at most its length, so the walk's result never exceeds the catalog. |
| PackageTree.ReachedAll | src/order/order.service.ts:161-173 | When the queue is empty and the children of every found package have been found, every descendant has been found. |
| PackageTree.WalkStep | src/order/order.service.ts:162-173 | Shifting one id from the queue and pushing its children keeps the walk invariant: no repeats, depths, discovery order, children of processed ids found. |
| PackageTree.WalkDone | src/order/order.service.ts:161-176 | When the queue is empty, the result is exactly the descendants, with no repeats and each after its parent. |
| PackageTree.WalkBounded | src/order/order.service.ts:161-173 | While the invariant holds, the result is no longer than the catalog. This bounds the number of iterations. |
| PackageTree.ChildrenAreNew | src/order/order.service.ts:166-173 | In an acyclic catalog, the children of the id being processed have not been seen before. |
| PackageTree.IdsMembership | src/order/order.service.ts:113-116 | An id is among the collected ids exactly when some collected package has it. |
| Lifecycle.SnapshotOf | src/order/order.service.ts:481-502 | The snapshot copies the package's id, name, price, duration and images. Its services are the package's services in order, each keeping its id, name, type and settings, with the usage counter at zero. |
| Lifecycle.NewRecord | src/order/order.service.ts:488-504 | The record a completed create order adds is not expired. It belongs to the order's user, points at the order, ends the package's duration after now, and holds the package's snapshot. |
| Lifecycle.CompletionEffect | src/order/order.service.ts:438-574 | The callback's effect on the purchased-package store adds at most one record, and only for a completed create order, keeping the existing records in front. It fails only for a completed renewal or upgrade, with "purchased package not found". |
| Lifecycle.ResetUsage | src/order/order.service.ts:481-486 | Resetting usage keeps every service and its position. It sets every usage counter to zero and changes nothing else in a service. |
| Lifecycle.FindById | src/order/order.service.ts:76-86 | The lookup of a purchased package by id returns the first record with that id, or nothing exactly when no record has it. |
| Lifecycle.FindByOrder | src/order/order.service.ts:442-454 | The lookup by order id returns the first record holding that order id. It returns nothing when the order has no reference or no record holds it. |
| Lifecycle.UpdateMany | src/order/order.service.ts:454-465 | The update patches every record holding the order id and leaves every other record unchanged. No record moves or disappears. |
| Lifecycle.CompletionFailsOnlyWithoutRecord | src/order/order.service.ts:438-454 | The callback fails exactly when a renewal or upgrade completes and no record holds its reference. The error is then "purchased package not found". |
| Lifecycle.OtherStatusChangesNothing | src/order/order.service.ts:438-441 | A status other than completed leaves the purchased-package store unchanged. |
| Lifecycle.CompletingCreate | src/order/order.service.ts:467-506 | Completing a create order appends exactly one record. The record is not expired, belongs to the buyer, points at the order, and ends `duration` months after now. Its snapshot is exactly `SnapshotOf` the package: id, name, price, duration, images, and the services in order with every usage counter at zero. |
| Lifecycle.CompletingRenewal | src/order/order.service.ts:438-465 | Completing a renewal changes only the record of the lineage. The record now points at the new order, and its expiry moves by the package's duration from the old expiry, not from now. |
| Lifecycle.CompletingUpgrade | src/order/order.service.ts:508-574 | Completing an upgrade rewrites only the record of the lineage. It keeps the record's id, points at the new order, belongs to the order's user, and is not expired. Its snapshot is exactly `SnapshotOf` the new package (name, images and services included, usage reset), and its expiry moves by the new duration from the old expiry. |
| Lifecycle.CompletionKeepsRecordIds | src/order/order.service.ts:438-574 | The callback adds at most one record, and every existing record keeps its id and position. Record ids stay unique and below the counter advanced by the number of records added. |
| Lifecycle.CompletionKeepsOnePerOrder | src/order/order.service.ts:438-574 | When the completing order is new to the store, the store keeps at most one record per order id. |
| Lifecycle.RepeatedCreateCompletionDuplicates | src/order/order.service.ts:467-506 | A second completed callback for the same create order adds a second record for the same order. |
| Lifecycle.RenewalsCompound | src/order/order.service.ts:438-465 | Two renewals in a row move the expiry by both durations, counted from the original expiry. |
| Orders.PaymentFor | src/order/order.service.ts:53-60 | The payment request carries the order's price as the amount, the order's id and partner, the fixed locale "vi", and the client address and return URL it is given. |
| Orders.PriorOrder | src/order/order.service.ts:75-110 | Shared by upgrade and renewal. It fails with not-found exactly when no record has the purchased-package id. It fails with access denied only for another user's record, and with not-found when the record's order is missing. Otherwise it returns exactly the stored order that the first record with that id points at. |
| Orders.OrderService.Insert | src/order/order.service.ts:49 | Storing an order gives it a fresh id, not used by any stored order, and adds it to the orders table without changing any other order. |
| Orders.OrderService.Create | src/order/order.service.ts:29-66 | The method fails, storing nothing, exactly when the package does not exist. Otherwise it stores one new order with the package's current price, the schema's default type and status, and no reference. The payment request carries the order's price and id. |
| Orders.OrderService.Upgrade | src/order/order.service.ts:68-155 | Errors of the prior-order checks propagate and store nothing. Otherwise the method succeeds exactly when the held package is a strict descendant of the target, and fails with "cannot upgrade" otherwise. On success the order takes the target's id and price, refers to the prior order, and the payment carries that price. |
| Orders.OrderService.Renew | src/order/order.service.ts:178-251 | Errors of the prior-order checks propagate and store nothing. Otherwise one new order repeats the prior order's package at that package's current price, refers to the prior order, and is paid at that price. |
| Orders.OrderService.Complete | src/order/order.service.ts:438-574 | The purchased-package store becomes exactly the completion effect of the order, or the method fails with that effect's error and changes nothing. Record ids stay unique and below the counter, which advances by the number of records added. |
| Orders.OrderService.UpdateFromPaymentService | src/order/order.service.ts:422-592 | An unknown order gives not-found. Any error leaves all stores unchanged. Otherwise the purchased-package store becomes exactly the completion effect, the order's status is set, and nothing else changes. |
| Pagination.FromQuery | src/tournament/dto/page-options-tournament.dto.ts:35-50 | A query is accepted exactly when each given page is at least 1 and each given page size is from 1 to 5000. Missing fields default to descending order, page 1 and page size 1000. Accepted options are within the bounds. |
| Pagination.Skip | src/tournament/dto/page-options-tournament.dto.ts:52-54 | Within the bounds, the skip is non-negative, a multiple of the page size, and page-1 page sizes long. Page 1 skips nothing. |
| Pagination.DivUnique | src/tournament/dto/page-options-tournament.dto.ts:52-54 | Proof helper for `Skip` and `RowOnPage`. The quotient of i by t is the only q with q*t <= i < q*t + t. |
| Pagination.RowOnPage | src/tournament/dto/page-options-tournament.dto.ts:39-54 | Row i is on page p exactly when p = i / take + 1, so the pages tile the rows with no gap and no overlap. |
| Pagination.DefaultsStartAtFirstRow | src/tournament/dto/page-options-tournament.dto.ts:35-54 | An empty query gives descending order, page 1 and page size 1000, which skips nothing. |
| OrderListing.Listed | src/order/order.service.ts:288-294 | The user listing keeps exactly the user's own orders that are not new, narrowed by status when one is given. Both listings respect a given status, and the admin listing with no filter keeps every order. The admin filter is the `where` clause at src/order/order.service.ts:346-349: status and user, each only when given. |
| OrderListing.Select | src/order/order.service.ts:288-303 | The filter keeps exactly the rows that match it, and no more rows than it was given. A single row is kept exactly when it matches. |
| OrderListing.SelectConcat | src/order/order.service.ts:288-303 | Filtering a concatenation is filtering each part, in order. With the singleton case of `Select`, this fixes which rows are selected, their order and their number. |
| OrderListing.TotalPages | src/order/order.service.ts:308-312 | With no matching rows the count is 0. Otherwise there is at least one page, and (pages-1)*take < count <= pages*take. |
| OrderListing.Window | src/order/order.service.ts:268-274 | The window holds min(take, rows remaining after skip) rows: a full page when enough rows remain, every remaining row on a partial last page, none past the end. Its k-th row is the (skip+k)-th row of its input. |
| OrderListing.FindAll | src/order/order.service.ts:253-365 | The total count is the number of matching rows, and the page count is its ceiling over the page size (0 when nothing matches). The page holds min(take, matching rows after skip) rows, and its k-th row is the (skip+k)-th matching row; a page past the last is empty. The user listing shows only the user's own orders and never new ones. |
| OrderListing.RowsWithinPageCount | src/order/order.service.ts:308-312 | Every matching row lies on a page from 1 to the page count. |
| OrderListing.PagesAfterLastAreEmpty | src/order/order.service.ts:308-312 | A page after the last starts past every matching row. |

## Left out

- The payment gateway call (`createPayment`) is not made. The model returns the payment request it would send. The return URL is a parameter, so the choice between two configured URLs on a mobile header is not modelled.
- Date arithmetic is whole months. The day clamping of calendar month addition is not modelled, and the current time is a parameter.
- A service's configuration is a record with a usage counter. Its JSON text encoding is not modelled.
- Exceptions are one error value per kind. The final catch in the payment callback, which re-wraps every error as an internal server error, is not modelled.
- The model covers one request at a time. Concurrent or duplicate payment callbacks are not modelled; `Lifecycle.RepeatedCreateCompletionDuplicates` shows what a duplicate `create` completion does.
- Only the operations named above are modelled. `findOne`, `update` and `remove` in the order service are not part of this model, and neither are the controllers, the package service, the upload helper or the mini-app DTO.
- Ids are natural numbers taken from counters, not database-generated strings. The snapshot's `createdAt`/`updatedAt` are not modelled.
- PackageTree.AllChildren: the target id is always an integer in the model, so the `currentId === undefined` skip (which guards a missing target id) is not modelled. The model assumes the whole catalog is acyclic. The source loops forever only when the target lies on a cycle, so a cyclic catalog whose cycles avoid the target (where the source stops) is not covered.
- OrderListing.FindAll: sorting by creation time is the database's job. The rows are given already in the requested order, and the `include` of each order's package is not modelled.
- OrderListing.FindAll: the listings take options of a DTO (`PageOptionsOrderDto`) that is not part of this model. It is assumed to have the same page and page-size bounds and defaults as the tournament page options, so both `page` and `take` are always set. For that reason the unpaginated branch (`page` or `take` missing) is not modelled.
- Pagination.FromQuery: the tournament filters on the same DTO (gender, format, participant type, status, phase) are optional enum filters with no arithmetic, and are not modelled. A number that is not an integer, and an order that is not a valid enum value, are not representable in the model.
- OrderListing.TotalPages: `Math.ceil` over floating-point division is modelled as exact integer ceiling division.
