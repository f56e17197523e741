# web_jewel storefront — a Dafny model of its core logic

This project models the deterministic logic of the web_jewel jewellery storefront:

- **Client side.** The shopping cart store. The product tile's "Add to Cart" line and its image `src`. The gift-packaging price table. The checkout order payload. The home-page hero carousel. The admin dashboard's statistics, its image reordering and its hero-slide form body.
- **Server side.** The upload filter shared by the hero and category routes. The hero slide schema (required fields, defaults, the `type` enumeration). The `/api/hero`, `/api/categories` and `/api/marquee` handlers. The marquee schema defaults. The Cloudinary public-id extraction run before an image is destroyed.

Each piece is a pure function over immutable data:

- A MongoDB collection is a sequence of `(id, document)` pairs in natural order (`Documents`).
- A handler maps a collection and a request to a reply and the collection afterwards.
- JavaScript `undefined` is `Option.None`.
- Prices are integers in minor units (cents).
- Things outside the program are parameters:
  - the clock reading
  - fresh document ids
  - the URL the image storage assigns to an upload
  - whether the order POST succeeded
  - database faults

Modules follow the source files:

- `CartStore`, `ProductCard`, `ImageUrl`, `PackagingSelector`, `Checkout`
- `AdminDashboard`, `HeroSection`
- `FileFilter`, `HeroModel`, `HeroRoutes`, `CategoryRoutes`, `MarqueeRoutes`, `Cloudinary`
- Shared helpers: `Wrappers` (optional values, `||` on strings), `Strings` (`includes`, `replace`, `split`, `toLowerCase`, decimal text), `Http` (replies), `Documents` (collections)

Where the code and its documentation differ, the model follows the code:

- **Marquee text.** On a marquee PUT, an empty `text` fails the schema's `required` validator, so the request is refused with 400. Only `bgColor` and `textColor` accept `''` as an overwrite.
- **Packaging selector.** Only the box-colour select is rendered. The cloth, cushion and ribbon selections therefore stay `''` in practice (`PackagingSelector.RenderedSelectorPrice`).
- **Category names.** Category names are checked for duplicates on create only; an update can produce two categories with the same name (`CategoryRoutes.UpdateMayDuplicateName`).
- **Cloudinary URLs without a '/'.** Such a URL yields the id `undefined/<name>`, because the missing folder segment is printed by a template literal.
- **Hero PUT with a product id.** A PUT with `type` "coming_soon" and a usable `productId` stores the product id. The admin form never sends that combination.

## Model

| member | source | states |
|---|---|---|
| CartStore.AddToCart | frontend/src/store/useCartStore.ts:33-46 | afterwards the product's key is present and every line with that key is the new item; an existing key keeps the length and every other line in place; a new key is appended at the end |
| CartStore.AddExistingReplacesInPlace | frontend/src/store/useCartStore.ts:37-42 | with unique keys, adding a present product replaces exactly its line at the same position (quantities are not summed) |
| CartStore.AddToCartKeepsKeysUnique | frontend/src/store/useCartStore.ts:35-45 | adding keeps product keys unique, and the item occurs in the cart |
| CartStore.AddToCartIdempotent | frontend/src/store/useCartStore.ts:33-46 | adding the same item twice gives the same cart as adding it once |
| CartStore.RemoveFromCart | frontend/src/store/useCartStore.ts:47-51 | the key is gone; a line is kept exactly when it was there and has another key; removing an absent key changes nothing |
| CartStore.RemoveFromCartCutsLine | frontend/src/store/useCartStore.ts:47-51 | with unique keys, removing line k's product yields the cart without position k, the rest in order |
| CartStore.RemoveFromCartKeepsKeysUnique | frontend/src/store/useCartStore.ts:47-51 | removing keeps product keys unique |
| CartStore.ClearCart | frontend/src/store/useCartStore.ts:52 | the cleared cart is empty and totals 0 |
| CartStore.TotalPriceIsUnitTimesQty | frontend/src/store/useCartStore.ts:53-55 | the left fold `acc + price*qty + (packagingPrice or 0)*qty` equals the reference sum of (price + packaging price) × qty |
| CartStore.TotalPriceAppend | frontend/src/store/useCartStore.ts:53-55 | the total of a concatenation is the sum of the totals |
| CartStore.ComputeTotal | frontend/src/store/useCartStore.ts:53-55 | the loop computing the fold returns the reference sum |
| CartStore.RemoveFromCartTotal | frontend/src/store/useCartStore.ts:47-55 | removing a line lowers the total by exactly that line's amount |
| CartStore.AddToCartTotal | frontend/src/store/useCartStore.ts:33-55 | adding a new product raises the total by its line amount; replacing a line changes the total by the difference of the two lines |
| CartStore.TotalPriceExample | frontend/src/store/useCartStore.ts:53-55 | a concrete cart with packaging totals 270 minor units |
| ProductCard.CartLineOf | frontend/src/components/ProductCard.tsx:15-25 | the line is keyed by the product id, snapshots name, price and stock, has quantity 1, no packaging, the first image if any, and contributes exactly the price to the total |
| ProductCard.RepeatedClicksKeepQuantityOne | frontend/src/components/ProductCard.tsx:15-25 | any number n ≥ 1 of clicks leaves the same cart as one click, with quantity 1 |
| ProductCard.CardImage | frontend/src/components/ProductCard.tsx:30-42 | the placeholder is shown exactly when there is no first image or it is empty; a '/'-path gets the API URL minus its first "/api" in front, anything else passes through |
| ImageUrl.ApiUrl | frontend/src/components/ProductCard.tsx:33 | an unset or empty variable falls back to http://localhost:5000/api, otherwise it is used |
| ImageUrl.Origin | frontend/src/components/ProductCard.tsx:32-34 | the corrected origin: the URL minus a trailing "/api", or the URL itself when it has none |
| ImageUrl.OriginAgreesWhenSuffixIsFirst | frontend/src/components/ProductCard.tsx:33 | when the only "/api" in the URL is the trailing one, the code's first-occurrence replace and the corrected origin agree |
| ImageUrl.DefaultOrigin | frontend/src/components/ProductCard.tsx:33 | with the default API URL both give http://localhost:5000 |
| ImageUrl.OriginAsWrittenCorruptsApiHost | frontend/src/components/HeroSection.tsx:232-234 | for a base URL on an `api.` host, the code's replace cuts the host: "https://api" + rest becomes "https:/" + rest |
| ImageUrl.ResolveImage | frontend/src/components/HeroSection.tsx:232-234 | a '/'-path is prefixed with the API URL minus its first "/api"; any other value is returned unchanged |
| ImageUrl.ResolveImageCorrected | frontend/src/components/HeroSection.tsx:232-234 | corrected: a '/'-path is prefixed with the API URL minus a trailing "/api" |
| ImageUrl.ResolveImageAgrees | frontend/src/components/HeroSection.tsx:232-234 | when the URL's only "/api" is its trailing path, the code and the correction give the same src, the URL minus "/api" followed by the path |
| ImageUrl.ResolveImageByDefault | frontend/src/components/HeroSection.tsx:232-234 | with no configured URL both serve a '/'-path from http://localhost:5000 |
| ImageUrl.ResolveImageOnApiHost | frontend/src/components/HeroSection.tsx:232-234 | on "https://api" + host + "/api" the code serves from "https:/" + host + "/api", the correction from "https://api" + host |
| PackagingSelector.FindByName | frontend/src/components/PackagingSelector.tsx:33-36 | `find` by name: none found means no option has the name; a found option is in the table with that name and no earlier option has it |
| PackagingSelector.HandleChange | frontend/src/components/PackagingSelector.tsx:30-51 | the emitted packaging echoes the four selections and the message, and its price is the sum of the matching options' prices, between 0 and 2000 |
| PackagingSelector.ChoiceBounds | frontend/src/components/PackagingSelector.tsx:13-21 | any selection costs between 0 and 500 |
| PackagingSelector.UnmatchedChoiceIsFree | frontend/src/components/PackagingSelector.tsx:33-41 | a name matching no option (including "Standard", the empty value) costs 0 |
| PackagingSelector.FindFirstMatch | frontend/src/components/PackagingSelector.tsx:33-36 | `find` returns the option at the first position carrying the name |
| PackagingSelector.TablePrices | frontend/src/components/PackagingSelector.tsx:13-21 | every table entry is priced at its listed amount when looked up by name |
| PackagingSelector.OfferedChoiceBound | frontend/src/components/PackagingSelector.tsx:13-21 | a selection offered for a kind costs at most that kind's dearest option |
| PackagingSelector.OfferedSelectionBound | frontend/src/components/PackagingSelector.tsx:38-41 | with one offered option per kind the price lies between 0 and 500 + 200 + 300 + 100 cents |
| PackagingSelector.BoxPrice | frontend/src/components/PackagingSelector.tsx:13-14 | each offered box costs 500 |
| PackagingSelector.RenderedSelectorPrice | frontend/src/components/PackagingSelector.tsx:69-79 | with only the box select rendered, the price is 0 for "Standard" (the empty value) and 500 for either offered box |
| Checkout.BuildOrder | frontend/src/app/checkout/page.tsx:31-44 | the payload carries the cart verbatim, the four address fields, "Razorpay", zero tax and shipping, an items price equal to the reference cart sum, and total = items + tax + shipping |
| Checkout.Submit | frontend/src/app/checkout/page.tsx:28-59 | an incomplete form submits nothing; a complete one posts the built order; the cart is emptied exactly when the post succeeds and is kept otherwise |
| Checkout.TotalIsSummaryPlusPackaging | frontend/src/app/checkout/page.tsx:105-111 | the total shown equals the per-line summary (price × qty) plus the packaging those rows leave out |
| Checkout.UnitSumSplits | frontend/src/app/checkout/page.tsx:105 | the reference sum splits into the summary rows and the packaging |
| Checkout.SummaryOmitsPackaging | frontend/src/app/checkout/page.tsx:105-111 | a packaged line shows 200 in its row but 1200 in the total |
| AdminDashboard.ComputeStats | frontend/src/app/admin/page.tsx:63-69 | sales are the sum of the orders' totals, orders their number, customers 0 |
| AdminDashboard.SalesFoldIsSum | frontend/src/app/admin/page.tsx:64 | the `reduce` left fold equals the reference sum |
| AdminDashboard.LowStockCount | frontend/src/app/admin/page.tsx:272 | the count is at most the number of products, 0 exactly when none has stock below 5, and all of them exactly when every one does |
| AdminDashboard.LowStockCountAppend | frontend/src/app/admin/page.tsx:272 | the count of a concatenation is the sum of the counts |
| AdminDashboard.MoveLeft | frontend/src/app/admin/page.tsx:379-385 | swaps positions idx−1 and idx when idx > 0, otherwise changes nothing; length and multiset of images kept, every other position unchanged |
| AdminDashboard.MoveRight | frontend/src/app/admin/page.tsx:394-400 | swaps positions idx and idx+1 when idx is not last, otherwise changes nothing; length and multiset kept, every other position unchanged |
| AdminDashboard.RemoveAt | frontend/src/app/admin/page.tsx:410-414 | exactly the element at idx is removed; the ones before keep their places and the ones after move up by one |
| AdminDashboard.AppendPicked | frontend/src/app/admin/page.tsx:353-356 | the picked files follow the existing list, which is unchanged |
| AdminDashboard.MoveRightUndoesMoveLeft | frontend/src/app/admin/page.tsx:379-400 | moving an image left and then right restores the list |
| AdminDashboard.MoveLeftUndoesMoveRight | frontend/src/app/admin/page.tsx:379-400 | moving an image right and then left restores the list |
| AdminDashboard.MoveLeftToFront | frontend/src/app/admin/page.tsx:379-385 | moving the second image left makes it the main (first) image |
| AdminDashboard.RemoveUndoesPick | frontend/src/app/admin/page.tsx:353-356 | picking one file and removing it restores the list |
| AdminDashboard.HeroFormBody | frontend/src/app/admin/page.tsx:189-200 | every text field is sent (an undefined description as the text "undefined"); `productId` is sent exactly when the type is "product" and the id is non-empty |
| AdminDashboard.ChooseComingSoon | frontend/src/app/admin/page.tsx:584 | choosing "Coming Soon" sets the type and clears the product id, leaving the texts |
| AdminDashboard.ComingSoonFormSendsNoProduct | frontend/src/app/admin/page.tsx:198-200 | after choosing "Coming Soon" the form sends no product id |
| AdminDashboard.ComingSoonPostHasNoProduct | frontend/src/app/admin/page.tsx:186-205 | a coming-soon slide created from the form is stored without a product link |
| AdminDashboard.ComingSoonEditClearsProduct | frontend/src/app/admin/page.tsx:186-205 | saving an existing slide from the form as coming-soon succeeds and drops its product link |
| AdminDashboard.UndescribedSlideGainsUndefinedText | frontend/src/app/admin/page.tsx:167-196 | editing a slide that has no description and saving stores the description text "undefined" |
| HeroSection.Loaded | frontend/src/components/HeroSection.tsx:24-45 | loading ends; a non-empty answer replaces the slides, an empty one or a failure keeps them; the index is unchanged |
| HeroSection.Step | frontend/src/components/HeroSection.tsx:48-56 | with at most one slide nothing moves; events never change the slides or the loading flag |
| HeroSection.StepKeepsInv | frontend/src/components/HeroSection.tsx:52 | a tick or a dot click keeps the index inside the slide list |
| HeroSection.RunKeepsInv | frontend/src/components/HeroSection.tsx:48-56 | any sequence of events keeps the index inside the slide list |
| HeroSection.TicksAdvance | frontend/src/components/HeroSection.tsx:52 | before the last slide, k ticks move exactly k slides on |
| HeroSection.TickWraps | frontend/src/components/HeroSection.tsx:52 | a tick on the last slide goes back to the first |
| HeroSection.FullCycle | frontend/src/components/HeroSection.tsx:48-56 | as many ticks as slides return to the starting slide |
| HeroSection.Render | frontend/src/components/HeroSection.tsx:75-88 | blank exactly while loading; once loaded, the logo exactly when there are no slides; otherwise the current slide |
| HeroSection.NothingFetchedShowsLogo | frontend/src/components/HeroSection.tsx:28-30 | an empty or failed fetch leaves the logo on show |
| HeroSection.DotShowsSlide | frontend/src/components/HeroSection.tsx:190-204 | clicking dot i shows slide i |
| HeroSection.CallToAction | frontend/src/components/HeroSection.tsx:166-177 | a badge exactly for coming-soon slides; otherwise a link to /product/<id> when the id is truthy, else to /shop |
| HeroSection.LinkTargets | frontend/src/components/HeroSection.tsx:171-172 | every link goes to /shop or to a non-empty /product/ path |
| HeroSection.HeroImageSrc | frontend/src/components/HeroSection.tsx:232-234 | a '/'-path gets the API URL minus its first "/api" in front, an empty image becomes /hero_ring.png, anything else passes through |
| FileFilter.ExtName | backend/routes/heroRoutes.js:12 | `path.extname`: empty, or a '.' followed by no further '.' and no '/', and always a suffix of the name |
| FileFilter.ExtNameEmptyIff | backend/routes/heroRoutes.js:12 | there is no extension exactly when the base name has no '.', only a leading one, or is ".." |
| FileFilter.ExtNameOf | backend/routes/heroRoutes.js:12 | "stem.ext" has extension ".ext" |
| FileFilter.CheckFileType | backend/routes/heroRoutes.js:10-20 | a file is accepted exactly when its lower-cased extension and its MIME type each contain one of jpg, jpeg, png, webp, svg; otherwise "Images only!" |
| FileFilter.MatchesImageTypeIff | backend/routes/heroRoutes.js:11 | the unanchored regular expression matches exactly when one of the five words occurs somewhere |
| FileFilter.UpperCaseExtensionAccepted | backend/routes/heroRoutes.js:12 | "<stem>.JPG" sent as image/jpeg is accepted |
| FileFilter.TextFileRejected | backend/routes/heroRoutes.js:12-15 | "<stem>.txt" is refused whatever its MIME type |
| FileFilter.MislabelledTypeRejected | backend/routes/heroRoutes.js:13-15 | any name sent as text/html is refused |
| FileFilter.DotFileRejected | backend/routes/heroRoutes.js:12-15 | ".png" has no extension and is refused |
| FileFilter.Receive | backend/routes/heroRoutes.js:22-27 | no file, a refused file, or the file passed on, exactly as the filter decides |
| FileFilter.ExtNameKept | backend/routes/categoryRoutes.js:23 | a '.'- and '/'-free stem put before a name's extension keeps that extension |
| HeroModel.ParseSlideType | backend/models/heroModel.js:27-31 | the enumeration accepts only "product" and "coming_soon", each as itself |
| HeroModel.SlideTypeRoundTrip | backend/models/heroModel.js:27-31 | parsing a type's name gives the type back |
| HeroModel.FailingPaths | backend/models/heroModel.js:4-31 | a path fails exactly when it is a required string that is unset or empty, or a `type` outside the enumeration; no other path is ever reported |
| HeroModel.Save | backend/models/heroModel.js:3-38 | saved exactly when the four required strings are present and the type is absent or allowed; the stored image, heading, subHeading and productCode are the draft's values, `isActive` defaults to true, `type` to "product", and the optional fields are kept |
| HeroModel.SaveDraftOf | backend/models/heroModel.js:3-38 | re-saving a well-formed stored slide unchanged yields the same slide |
| HeroModel.UnknownTypeRejected | backend/models/heroModel.js:27-31 | a type outside the enumeration makes the save fail at "type" |
| HeroRoutes.ActiveSlides | backend/routes/heroRoutes.js:32 | only active slides are returned, every active slide is returned, and nothing that is not stored |
| HeroRoutes.ActiveSlidesAppend | backend/routes/heroRoutes.js:32 | the active slides of a concatenation keep collection order |
| HeroRoutes.HeroGet | backend/routes/heroRoutes.js:30-37 | 200 with exactly the active slides in collection order, or 500 with the fault's message |
| HeroRoutes.PostedType | backend/routes/heroRoutes.js:52 | the type sent when it is non-empty, otherwise "product" |
| HeroRoutes.HeroPost | backend/routes/heroRoutes.js:40-65 | a refused upload gives 500 and changes nothing; success (201) exactly when a stored image and the required fields are present and the type is allowed; the slide is appended, active, holding the uploaded image, the sent heading, subHeading, productCode and description, the posted type, and the sent product id exactly when it is usable; no file gives 400 naming "image", and any other failure that reaches the handler is a 400 validation error |
| HeroRoutes.PostKeepsStoreValid | backend/routes/heroRoutes.js:40-65 | a POST keeps ids unique and every stored slide well-formed with only usable product ids |
| HeroRoutes.PostedSlideIsServed | backend/routes/heroRoutes.js:30-65 | after a successful POST the GET list is the old list followed by the new slide |
| HeroRoutes.HeroPut | backend/routes/heroRoutes.js:68-102 | a refused upload gives 500; an unknown id gives 404 "Slide not found"; success (200) stores the edited slide in place, where each text field is the truthy form value or else the old one, the image is the upload's URL only when a file arrived, `isActive` is kept and the product id follows the link rules; failure changes nothing; an asset is destroyed only when a new file arrived, and it is the old image's public id |
| HeroRoutes.EditSaves | backend/routes/heroRoutes.js:76-94 | the merged edit of a valid slide saves exactly when a new image has a URL and the sent type, if non-empty, is in the enumeration |
| HeroRoutes.PutFound | backend/routes/heroRoutes.js:74-94 | on a stored slide the PUT succeeds exactly when the merged slide validates, and returns that slide |
| HeroRoutes.EditKeepsSlideValid | backend/routes/heroRoutes.js:74-84 | a `||`-merged edit of a valid slide that saves is valid |
| HeroRoutes.PutKeepsStoreValid | backend/routes/heroRoutes.js:68-102 | a PUT keeps ids unique and every stored slide valid |
| HeroRoutes.EditAgainIsSame | backend/routes/heroRoutes.js:74-92 | re-applying an edit to a slide that already carries it saves the slide unchanged |
| HeroRoutes.PutIdempotent | backend/routes/heroRoutes.js:68-102 | sending the same PUT twice leaves the collection as the first did |
| HeroRoutes.EmptyEditKeepsSlide | backend/routes/heroRoutes.js:74-78 | a PUT with no fields and no file returns the stored slide and changes nothing |
| HeroRoutes.ComingSoonClearsProduct | backend/routes/heroRoutes.js:80-84 | switching to "coming_soon" without a usable product id succeeds and drops the product link |
| HeroRoutes.ComingSoonKeepsUsableProduct | backend/routes/heroRoutes.js:80-82 | a usable product id is stored even on a coming-soon slide |
| HeroRoutes.DestroyBeforeSaveLosesImage | backend/routes/heroRoutes.js:86-94 | a new image with an unknown type: the PUT fails with 400, yet the old asset is destroyed while the slide still points at it |
| HeroRoutes.HeroPutDestroyAfterSave | backend/routes/heroRoutes.js:86-94 | corrected order: same reply and collection, and an asset is destroyed only after a successful save that replaced the image |
| HeroRoutes.HeroDelete | backend/routes/heroRoutes.js:105-116 | always 200 "Slide deleted"; the id is gone and every other id finds the same slide; an asset is destroyed only for an existing slide |
| HeroRoutes.DeleteKeepsStoreValid | backend/routes/heroRoutes.js:105-116 | a DELETE keeps the collection valid |
| HeroRoutes.DeleteIdempotent | backend/routes/heroRoutes.js:105-116 | deleting twice leaves what deleting once left |
| CategoryRoutes.StoredFileName | backend/routes/categoryRoutes.js:22-24 | the stored file name keeps the original name's extension |
| CategoryRoutes.ImagePath | backend/routes/categoryRoutes.js:60 | an uploaded image is recorded under "/uploads/" |
| CategoryRoutes.CreateCategory | backend/routes/categoryRoutes.js:57-81 | a refused upload gives 500; a taken name gives 400 "Category already exists" and changes nothing; otherwise 201 and the category is appended with the name and description sent and image "/uploads/<file>", or '' without a file |
| CategoryRoutes.CreateKeepsNamesUnique | backend/routes/categoryRoutes.js:62-71 | creation keeps names and ids unique |
| CategoryRoutes.CreateTwiceRefused | backend/routes/categoryRoutes.js:62-65 | a second identical create is refused with 400 and changes nothing |
| CategoryRoutes.UpdateCategory | backend/routes/categoryRoutes.js:84-104 | a refused upload gives 500; an unknown id gives 404 "Category not found"; otherwise 200 with a falsy name or description kept and a truthy one taken, the image kept without a file and replaced by the new upload path with one, stored in place |
| CategoryRoutes.EmptyUpdateKeepsStore | backend/routes/categoryRoutes.js:89-94 | an update with no fields and no file changes nothing |
| CategoryRoutes.UpdateIdempotent | backend/routes/categoryRoutes.js:84-104 | sending the same update twice leaves what the first left |
| CategoryRoutes.UpdateMayDuplicateName | backend/routes/categoryRoutes.js:86-96 | renaming is not checked: an update can give two categories the same name |
| CategoryRoutes.DeleteCategory | backend/routes/categoryRoutes.js:107-120 | 200 "Category removed" exactly when the id exists, else 404 and nothing changes; the id is gone and every other id is unaffected |
| CategoryRoutes.DeleteTwiceNotFound | backend/routes/categoryRoutes.js:107-120 | a second delete of the same id answers 404 |
| MarqueeRoutes.Defaults | backend/models/marqueeModel.js:3-21 | the defaults are the text "shows new collections out , collect now !", active, background "theme" and text colour "white" |
| MarqueeRoutes.Assign | backend/routes/marqueeRoutes.js:29-32 | each defined field is overwritten (false and '' included), each undefined field kept |
| MarqueeRoutes.AssignIdempotent | backend/routes/marqueeRoutes.js:29-32 | assigning the same fields twice equals assigning them once |
| MarqueeRoutes.AssignNothing | backend/routes/marqueeRoutes.js:29-32 | an empty body assigns nothing |
| MarqueeRoutes.MarqueeGet | backend/routes/marqueeRoutes.js:7-18 | a fault gives 500; an existing first document is returned unchanged; an empty collection gets the defaults saved and returned |
| MarqueeRoutes.GetTwiceCreatesOnce | backend/routes/marqueeRoutes.js:7-18 | two GETs create at most one document and return the same settings |
| MarqueeRoutes.GetKeepsStoreValid | backend/routes/marqueeRoutes.js:7-18 | a GET keeps ids unique and every text non-empty |
| MarqueeRoutes.MarqueePut | backend/routes/marqueeRoutes.js:21-40 | success exactly without a fault and with a non-empty resulting text; with no document the body is laid over the defaults and inserted, otherwise assigned onto the first document in place; every failure is a 400 that changes nothing |
| MarqueeRoutes.PutKeepsStoreValid | backend/routes/marqueeRoutes.js:21-40 | a PUT keeps the collection valid |
| MarqueeRoutes.PutIdempotent | backend/routes/marqueeRoutes.js:21-40 | the same PUT twice leaves what the first left |
| MarqueeRoutes.EmptyTextRefused | backend/routes/marqueeRoutes.js:29-38 | an empty text is refused with 400 at "text" |
| MarqueeRoutes.EmptyColourStored | backend/routes/marqueeRoutes.js:31-32 | an empty colour is stored as given |
| Cloudinary.PublicIdOf | backend/config/cloudinary.js:22-38 | nothing for an empty URL or one without res.cloudinary.com; otherwise folder + "/" + name, where the name is the last '/'-segment up to its first '.' and the folder the segment before it, or "undefined" when there is none |
| Cloudinary.PublicIdShape | backend/config/cloudinary.js:28-32 | for prefix/folder/file with a slash-free folder and file, the id is folder + "/" + the file's text before its first '.' |
| Cloudinary.KeepsTextBeforeFirstDot | backend/config/cloudinary.js:30 | a file name with several dots keeps only the text before the first |
| Cloudinary.NoSlashUsesUndefinedFolder | backend/config/cloudinary.js:31-32 | a Cloudinary URL with no '/' yields "undefined/" + its text before the first '.' |
| Cloudinary.OtherHostsSkipped | backend/config/cloudinary.js:23 | an empty URL or one naming another host yields no id |
| Cloudinary.DocumentedExample | backend/config/cloudinary.js:27-32 | the documented URL shape ending in folder/public_id.jpg yields "folder/public_id" |
| Documents.FindById | backend/routes/heroRoutes.js:71 | `findById` finds a document exactly when one has the id, and returns that document's value |
| Documents.DeleteById | backend/routes/heroRoutes.js:111 | `findByIdAndDelete`: the id is gone, every other id is present exactly as before, and an absent id changes nothing |
| Documents.FindAfterReplace | backend/routes/heroRoutes.js:94 | after saving a loaded document its id finds the new value and other ids are unaffected |
| Documents.DeleteKeepsUniqueIds | backend/routes/categoryRoutes.js:112 | deleting keeps ids unique and only removes documents |
| Strings.RemoveFirstAt | frontend/src/components/ProductCard.tsx:33 | `replace` with a string pattern cuts out exactly the first occurrence |
| Strings.SplitJoin | backend/config/cloudinary.js:28 | joining the pieces of a split gives the text back |
| Strings.DecimalValue | backend/routes/categoryRoutes.js:23 | the decimal text of the clock reading reads back as the same number |

## Left out

- PackagingSelector.HandleChange: the one-step lag is not modelled. The box select and the gift message run `setTimeout(handleChange, 0)` with the closure of the render before the update (PackagingSelector.tsx:73 and 90), so the automatic `onChange` sends the previous selection; only "Apply Selection" (line 95) sends the current one. The member models one call on the selection it is given.
- Network, React and timers. These are left out: axios and `fetch`, React state and effects, the resize listener, the 800 ms animation delay, and framer-motion. The carousel's interval is modelled as `Tick` events, and the fetch result is a parameter.
- MongoDB persistence. A collection is a sequence in natural order, and there is no concurrency or atomicity. Ids are plain strings, so casting a malformed id or product id to an ObjectId (a `CastError`) is not modelled.
- Database faults. They are a parameter for the hero GET and both marquee routes. For the other handlers, the 500/400 replies raised by a failing database call are not modelled.
- JSON `null` in request bodies is not modelled: a marquee field sent as `null` counts as defined. A non-boolean `isActive` is not modelled either.
- Validation messages. Mongoose's message text is not reproduced. A validation failure is modelled as the list of failing paths in schema order.
- The upload storages. Multer's disk storage and the Cloudinary storage are not modelled. Cloudinary's `allowed_formats` check and image transformation are not modelled. The URL Cloudinary assigns and the clock reading are parameters.
- Upload filter text handling. `path.extname` is modelled for names without a trailing '/'. `toLowerCase` is modelled for ASCII letters only.
- The `cloudinary.uploader.destroy` call itself. The model only reports which public id it would be given.
- Category model. `backend/models/categoryModel.js` is not part of this model, so any schema validation it adds is not modelled. Creation is taken to succeed, and the "Invalid category data" branch, which `Category.create` never reaches, is not modelled.
- CategoryRoutes.CreateCategory: the name is a required field of the request body here. A create without a name field depends on how the query treats an undefined filter and on the unseen category schema, and is not modelled.
- The category GET list and the admin's category, product and order requests are plain pass-through calls and are not modelled.
- Floating point and `toFixed`. Prices are integer minor units.
- The checkout page's redirects (login, empty cart). The order controller that receives the payload is not part of this model.
- The zustand `persist` layer (localStorage) is not modelled.
- The admin hero edit's other fields. Only the description's undefined-to-"undefined" conversion is modelled. Every other field of a loaded slide is a string.
- HeroSection.Step: a dot click is a no-op while loading, because the dots are only drawn with the slide view. Only that timing is modelled, not the dots' rendering.

## Findings

| source | as written | input that shows it | evidently intended | confidence | as-written member | corrected member |
|---|---|---|---|---|---|---|
| frontend/src/components/ProductCard.tsx:32-34 (also frontend/src/components/HeroSection.tsx:232-234) | `apiUrl.replace('/api', '')` removes the first "/api" anywhere in the URL | NEXT_PUBLIC_API_URL = "https://api.shop.com/api" gives the origin "https:/.shop.com/api" | drop only the trailing "/api", giving "https://api.shop.com" | medium; not executed | ImageUrl.ResolveImageOnApiHost | ImageUrl.ResolveImageCorrected |
| backend/routes/heroRoutes.js:86-94 | the old image is destroyed on Cloudinary before `slide.save()` validates the edit | PUT /api/hero/:id with a new image and type "banner" answers 400, but the old asset is gone while the slide still references it | destroy the old asset only after the save succeeds | low (the admin form never sends an unknown type); not executed | HeroRoutes.DestroyBeforeSaveLosesImage | HeroRoutes.HeroPutDestroyAfterSave |

`ImageUrl.ResolveImage`, `ProductCard.CardImage` and `HeroSection.HeroImageSrc` follow the code's first-occurrence replace. `ImageUrl.ResolveImageCorrected` is the same resolution on the corrected `ImageUrl.Origin`; substituting it into the two components is the correction for them. `HeroRoutes.HeroPutDestroyAfterSave` gives the same reply and collection as `HeroRoutes.HeroPut`, so the collection lemmas hold for both.
