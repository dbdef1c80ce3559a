# Page builder: static export and drag-and-drop state

A Dafny model of the logic of a visual page builder written in TypeScript/React.
The user drags catalog blocks (header, footer, banner) onto a work area, and the
builder can export a component forest as static HTML markup.

Two parts are modelled:

- `HtmlExport` (`html_export.dfy`) models `src/components/builder/utils.tsx`.
  `Component` is the `ComponentType` tree: an id, an opaque payload and an
  optional list of children.
  - `Render` is `renderComponent`, a recursive function. The section test
    (`id.startsWith("section")`) comes first. A section gives a `div` with
    `id="<id>"` and the fixed inline style, wrapped around its children's
    fragments. The template's surrounding whitespace is kept exactly.
    `header` gives `<header>…</header>`, `footer` gives `<footer>…</footer>`,
    and every other id gives `<div>…</div>`.
  - `GenerateHtml` is `generateHTML`: a method whose loop extends an accumulator
    container by container. It is proved equal to the specification function
    `Html`.
  - `ExportPage` is `exportPage` without the download itself.
- `BuilderComponent` (`builder.dfy`) models the state of the `Builder` component in
  `src/components/builder/builder.tsx`.
  - `Builder` is a class with the two state cells, `components` and `activeId`.
  - `HandleDragStart` and `HandleDragEnd` are the gesture handlers.
  - `Catalog` is `availableComponents`, and `Find` is its `find` lookup.
  - `Drop` is the specification function of a drag end. `Replay` is a sequence
    of drag ends.

`options.dfy` holds the `Option` type for `null` and `undefined`.

External pieces become parameters of the model:

- `componentToHTML` calls React's `renderToString`, so it is the function
  parameter `toHtml: (P, string) -> string`. It gets a node's payload and id.
- The order of `Object.keys` comes from the JavaScript engine, so it is the
  parameter `keys`. `EnumeratesKeys` requires it to list every container name
  exactly once.
- The gesture library's events reach the model as the dragged id and the id of
  the droppable under the pointer, if there is one.

The state cell `components` is declared as an object keyed by work-area name,
with `"work-area-1"` and `"work-area-2"` both empty (`builder.tsx:124-129`).
The handler spreads it into an array literal (`builder.tsx:154`), and the view
calls `.map` on it (`builder.tsx:177`). Both uses treat it as one list, so the
class models it as `seq<Entry>`. The droppable's id is `"work-area"`, which is
neither declared key. What the declared object does at run time is recorded
under Findings.

## Model

| member | source | states |
|---|---|---|
| `HtmlExport.LeafTag` | src/components/builder/utils.tsx:62-74 | A non-section node is tagged `header` exactly for id `header` and `footer` exactly for id `footer`. Every other id, `banner` included, is tagged `div`. |
| `HtmlExport.Render` | src/components/builder/utils.tsx:45-75 | Every node's fragment is non-empty. A section's fragment begins with the `div` wrapper that carries its id and style. |
| `HtmlExport.RenderAll` | src/components/builder/utils.tsx:55-57 | The joined fragments of a list are empty exactly when the list is empty. They contain at least one character per node. |
| `HtmlExport.GenerateHtml` | src/components/builder/utils.tsx:40-83 | The accumulator loop returns `Html` of the forest over the keys in `Object.keys` order. The result is `""` exactly when every container is empty, which includes a forest with no containers. |
| `HtmlExport.ExportPage` | src/components/builder/utils.tsx:134-143 | The download is named `index.html`, has type `text/html`, and holds the exported markup. |
| `HtmlExport.RenderAllAppend` | src/components/builder/utils.tsx:56-57 | `map(renderComponent).join("")` is a homomorphism: the fragments of `a + b` are those of `a` followed by those of `b`. |
| `HtmlExport.HtmlSnoc` | src/components/builder/utils.tsx:78-80 | Visiting one more container appends exactly that container's fragments to the accumulated markup. |
| `HtmlExport.HtmlAppend` | src/components/builder/utils.tsx:78-80 | Exporting the keys `k1 + k2` gives the export of `k1` followed by the export of `k2`. |
| `HtmlExport.HtmlRendersFlattenedForest` | src/components/builder/utils.tsx:78-80 | Containers are visited in key order and nodes in list order. The export equals the rendering of all containers' lists concatenated in key order. |
| `HtmlExport.HtmlEmptyIff` | src/components/builder/utils.tsx:43-80 | The export is `""` exactly when every visited container is empty. Both directions are proved. |
| `HtmlExport.ExportEmptyIffContainersEmpty` | src/components/builder/utils.tsx:43-80 | For a full enumeration of the keys, the export is `""` exactly when every container of the forest is empty. |
| `HtmlExport.SectionFragment` | src/components/builder/utils.tsx:48-60 | A section renders as its wrapper around the in-order fragments of its children. With absent or empty children it renders as the same empty wrapper, which is still emitted. |
| `HtmlExport.SectionIgnoresPayload` | src/components/builder/utils.tsx:46-60 | A section's own content is computed but never emitted: changing its payload leaves its fragment unchanged. |
| `HtmlExport.LeafFragment` | src/components/builder/utils.tsx:62-74 | A non-section node renders as exactly `<tag>` + content + `</tag>`, with the tag from `LeafTag`. Its children never contribute to the output. |
| `HtmlExport.RenderReadsOnlyEmittedContent` | src/components/builder/utils.tsx:45-75 | A fragment depends only on the node's id, its content and its children. Two content functions that agree on the emitted non-section nodes give the same fragment. |
| `HtmlExport.RenderAllReadsOnlyEmittedContent` | src/components/builder/utils.tsx:55-57 | The same locality holds for a list of nodes. |
| `HtmlExport.NestedExportExample` | src/components/builder/utils.tsx:45-80 | Take a work area holding a header and a section that holds a banner. Its export is the header element, then the section wrapper with the banner's `div` strictly inside it. |
| `BuilderComponent.Find` | src/components/builder/builder.tsx:150-152 | The lookup uses exact id equality. It finds nothing exactly when no entry has the id. When it finds an entry, that entry is in the list and has the id. |
| `BuilderComponent.FindReturnsFirst` | src/components/builder/builder.tsx:150-152 | The lookup returns the first entry whose id matches. |
| `BuilderComponent.CatalogIdsDistinct` | src/components/builder/builder.tsx:133-137 | The catalog ids `header`, `footer` and `banner` are pairwise distinct. |
| `BuilderComponent.CatalogLookup` | src/components/builder/builder.tsx:133-137 | A catalog lookup succeeds exactly for `header`, `footer` and `banner`. It returns the unique catalog entry with that id. |
| `BuilderComponent.Drop` | src/components/builder/builder.tsx:149-155 | Earlier entries keep their places. The list grows by one exactly when the target is `"work-area"` and the dragged id is a catalog id. Otherwise it is unchanged. The appended entry is the catalog entry with the dragged id. |
| `BuilderComponent.DropIgnoresPlaced` | src/components/builder/builder.tsx:154 | There is no duplicate suppression: what a drop appends does not depend on what is already placed. |
| `BuilderComponent.Replay` | src/components/builder/builder.tsx:145-159 | A sequence of drag ends keeps the old list as a prefix, so no entry is removed or replaced. It adds at most one entry per event. |
| `BuilderComponent.Placements` | src/components/builder/builder.tsx:149-155 | The entries a sequence of drag ends contributes are catalog entries, at most one per event. |
| `BuilderComponent.ReplayAppendsInOrder` | src/components/builder/builder.tsx:154 | Placement is append-only and keeps order. After any drag ends, the list is the old list followed by the successful placements in call order. |
| `BuilderComponent.RepeatedDropsAllLand` | src/components/builder/builder.tsx:150-155 | Dropping the same catalog block `n` times on the work area appends exactly `n` copies of its entry. |
| `BuilderComponent.Builder.constructor` | src/components/builder/builder.tsx:124-130 | Initially nothing is placed and nothing is being dragged. |
| `BuilderComponent.Builder.HandleDragStart` | src/components/builder/builder.tsx:140-142 | `activeId` becomes the dragged id. `components` is unchanged. |
| `BuilderComponent.Builder.HandleDragEnd` | src/components/builder/builder.tsx:145-159 | `activeId` is cleared on every path. `components` becomes `Drop` of the old list. It is unchanged when the target is missing, is not `"work-area"`, or the id is not in the catalog. |
| `BuilderComponent.SpreadAppend` | src/components/builder/builder.tsx:154 | Spreading a list and appending an entry gives the list's items, in order, followed by that entry. Spreading the declared object fails. |
| `BuilderComponent.DropAsWritten` | src/components/builder/builder.tsx:145-159 | The handler as written, on the cell's actual value. It throws exactly on a work-area drop of a catalog id while the cell holds the declared object; `None` stands for the whole handler aborting, so `setActiveId(null)` at line 158 is skipped on that path. Every other drop on the object leaves it as it was. |
| `BuilderComponent.FirstDropAsWrittenThrows` | src/components/builder/builder.tsx:124-155 | If reached, a successful drop on the declared initial value throws at the spread instead of placing the block. |
| `BuilderComponent.ViewEntriesAsWritten` | src/components/builder/builder.tsx:177 | The view's `components.map` yields the list's entries when the cell holds a list and throws when it holds the declared object. |
| `BuilderComponent.FirstRenderAsWrittenThrows` | src/components/builder/builder.tsx:124-177 | The first render maps over the declared initial value and throws, so the builder never mounts. |
| `BuilderComponent.DropAsWrittenOnListIsDrop` | src/components/builder/builder.tsx:145-159 | When the cell holds a list, the handler as written does exactly what `Drop` describes. |

## Findings

| source | as written | input that shows it | evidently intended | confidence | as-written member | corrected member |
|---|---|---|---|---|---|---|
| src/components/builder/builder.tsx:124-177 | The state `components` starts as the object `{"work-area-1": [], "work-area-2": []}`. A drop evaluates `[...components, component]`, and spreading a plain object throws a TypeError because it is not iterable. The view's `components.map` at line 177 fails the same way. | Mounting `Builder` (`App.tsx:8`): the first render throws at line 177. The spread at line 154 would throw as well if a drop were ever reached. | `components` is one list, as in the commented-out declaration at line 123. A drop appends the catalog entry to it. | high; not executed | `BuilderComponent.FirstRenderAsWrittenThrows` | `BuilderComponent.Builder.HandleDragEnd` |

## Left out

- `componentToHTML` (`utils.tsx:17-38`) is foreign React server rendering (`renderToString`, `isValidElement`, `String(...)`). It is the parameter `toHtml`, so the model does not say what markup a block's payload produces.
- `HtmlExport.GenerateHtml`: the `console.log(html)` at `utils.tsx:81` is output only and is not modelled.
- `HtmlExport.Render`: `toHtml` is total, so a throw from `renderToString` is not modelled. In the source such a throw aborts the whole export, even for a section, whose content is computed at `utils.tsx:46` and then discarded.
- `HtmlExport.ExportPage`: `downloadFile` (`utils.tsx:120-132`) is Blob, URL and DOM I/O. The model stops at the triple of file name, content and MIME type that is handed to it.
- `generateCSS` and `generateJS` (`utils.tsx:85-118`) return constant strings and are unused by the export.
- The order of `Object.keys` is a parameter. JavaScript lists integer-like keys first, in ascending order, and then the other keys in insertion order. The model does not encode that rule.
- The markup does not escape a section id inside the `id="…"` attribute, and neither does the model. No property about well-formed HTML is claimed.
- dnd-kit's hooks, hit testing, the drag overlay and the hover styling (`builder.tsx:66-112`, `184-198`) belong to the gesture library and the UI.
- `BuilderComponent.Builder.HandleDragStart`: dnd-kit ids may also be numbers. The model takes every id as a string, the value cast at `builder.tsx:141`.
- `BuilderComponent.Builder.HandleDragEnd`: the `console.log({ over })` at `builder.tsx:147` is output only and is not modelled. React batches state updates, and the handler reads the `components` of the render it was created in. The model runs each handler on the current state, which matches one event handled per render.
- The React rendering of the work area and of sections (`builder.tsx:161-200`, `section/section.tsx`) only maps nodes to UI elements. The presentation-only components (`App.tsx`, header, footer, banner, static component) carry no logic.
- No nested placement search, no per-parent duplicate rule and no generated section ids are modelled, because the builder's code has none. Its only placement is the flat append at `builder.tsx:154`.
