# GtkWidgetPrivate: the widget state record and its inline readers

This project models the private per-widget state of GTK's widget base type,
`struct _GtkWidgetPrivate` in `gtk/gtkwidgetprivate.h`, together with the inline
readers that the header defines over it. It proves properties of those readers in Dafny.

- `bit_fields.dfy` (module `BitFields`): how the header's packed fields store values.
  Assigning an unsigned value to a C bit-field of `n` bits keeps it modulo 2^n.
- `widget_private.dfy` (module `Widget`): the record `WidgetPrivate`, one field per
  non-debug member of the struct except the collaborator-owned handles and lists named
  under "Left out". The packed fields have types bounded by their declared
  widths: `state_flags` 14 bits, `direction` 2, `halign` and `valign` 4, `alpha` and
  `user_alpha` 8. The module also holds the readers that combine fields:
  `IsDrawable`, `HasWindow`, `GetDirection` and `GetStyleContext`.
- `widget_tree.dfy` (module `WidgetTree`): the widget tree as an arena. The arena is a
  map from widget identity to record, and a NULL link is `None`. `Up(a, x, k)` is the
  widget reached by following `parent` k times. `Acyclic` says that some rank decreases
  strictly along every `parent` link and that every parent is a live widget;
  `AcyclicIffNoCycle` shows that this is exactly "no widget is its own strict ancestor
  and no parent link dangles". `GetToplevel` is `_gtk_widget_get_toplevel`: a `while` loop over the arena. It is proved
  against the ghost function `Toplevel`. The module also states where a widget's `window`
  comes from (the comment on the field at lines 146-149): `WindowsDelegated` says every
  realized windowless widget shares its parent's `window`, `RealizedUpward` says a
  realized widget's parent is realized, and `WindowOwner` is the nearest
  ancestor-or-self that `HasWindow`.

The readers that return one stored field unchanged need no member of their own. These are
`_gtk_widget_get_parent`, `_get_visible`, `_get_child_visible`, `_get_mapped`,
`_get_realized`, `_is_toplevel`, `_get_state_flags`, `_get_window`, `_get_allocation`,
`_get_prev_sibling`, `_get_next_sibling`, `_get_first_child` and `_get_last_child`.
Each one is the record selector with the matching name (`w.parent`, `w.visible`,
`w.stateFlags`, ...). A record is a value, so reading it changes no widget.
Four readers combine fields in one expression, and their Dafny bodies are that expression:
`IsDrawable` is `visible && mapped` (line 372), `HasWindow` is `!noWindow` (line 378),
`GetDirection` is the choice at lines 404-407 and `GetStyleContext` the choice at lines
422-425. `IsDrawable` is a definition only: no lemma is stated about it. `HasWindow` is
used by the window lemmas of `WidgetTree`. `GetDirection` and `GetStyleContext` have the
lemmas in the table below.

Two parameters stand in for values outside the header:
- the process-wide `gtk_default_direction` is the `defaultDirection` argument of `GetDirection`;
- the result of the public `gtk_widget_get_style_context`, which this header only calls,
  is the `created` argument of `GetStyleContext`.

The enumeration codes come from gtk/gtkenums.h, which is not part of this model. They are
constants: GTK_TEXT_DIR_NONE = 0, LTR = 1, RTL = 2, and GtkAlign FILL = 0 to BASELINE = 4.

## Model

| member | source | states |
|---|---|---|
| BitFields.Store | gtk/gtkwidgetprivate.h:45-47 | a value stored into an n-bit field reads back below 2^n, and reads back unchanged exactly when it was already below 2^n |
| BitFields.FlagBitSurvives | gtk/gtkwidgetprivate.h:38-45 | a single flag bit 1 << i survives a store into an n-bit field exactly when i < n |
| Widget.StateFlagBitKept | gtk/gtkwidgetprivate.h:38-45 | `state_flags` keeps flag bit i exactly when i < GTK_STATE_FLAGS_BITS = 14, and what it holds is below 2^14 |
| Widget.TextDirectionsFitField | gtk/gtkwidgetprivate.h:47 | NONE, LTR and RTL each survive a store into the 2-bit `direction` field |
| Widget.AlignmentsFitField | gtk/gtkwidgetprivate.h:94-95 | every GtkAlign code survives a store into the 4-bit `halign`/`valign` fields |
| Widget.FieldsFitWidths | gtk/gtkwidgetprivate.h:40-98 | every record has `state_flags` < 2^14, `direction` < 4, `halign`, `valign` < 16, `alpha`, `user_alpha` < 256 |
| Widget.ResolvedDirectionIsConcrete | gtk/gtkwidgetprivate.h:401-408 | with a concrete default (LTR or RTL) and a stored GtkTextDirection code, the resolved direction is LTR or RTL, never NONE |
| Widget.DirectionDependsOnDefault | gtk/gtkwidgetprivate.h:404-407 | two different defaults give different results exactly when the widget stores GTK_TEXT_DIR_NONE |
| Widget.StyleContextDependsOnFallback | gtk/gtkwidgetprivate.h:422-425 | the public getter's result matters exactly when no context is cached |
| WidgetTree.GetToplevel | gtk/gtkwidgetprivate.h:410-417 | on an acyclic arena the loop terminates; the result has no parent, is the input or one of its ancestors, and equals `Toplevel` |
| WidgetTree.Toplevel | gtk/gtkwidgetprivate.h:413-416 | every widget of an acyclic arena has a toplevel: an ancestor-or-self without a parent |
| WidgetTree.ToplevelExists | gtk/gtkwidgetprivate.h:413-414 | when a rank decreases strictly along `parent`, the walk from any widget reaches a root |
| WidgetTree.ToplevelUnique | gtk/gtkwidgetprivate.h:413-416 | a parent chain has at most one root, so the toplevel is determined by the input |
| WidgetTree.ToplevelIsSelfIffRoot | gtk/gtkwidgetprivate.h:413-416 | a widget is its own toplevel exactly when it has no parent |
| WidgetTree.ToplevelIdempotent | gtk/gtkwidgetprivate.h:410-417 | the toplevel of a toplevel is itself |
| WidgetTree.ToplevelOfParent | gtk/gtkwidgetprivate.h:413-414 | a widget and its parent have the same toplevel |
| WidgetTree.ToplevelOfAncestor | gtk/gtkwidgetprivate.h:413-414 | a widget and any of its ancestors have the same toplevel |
| WidgetTree.NoCycleWhenRanked | gtk/gtkwidgetprivate.h:158 | in an acyclic arena no widget is its own strict ancestor |
| WidgetTree.ReachesRootWithoutCycle | gtk/gtkwidgetprivate.h:413-414 | when no widget is its own strict ancestor and every parent is live, the walk from any widget reaches a root |
| WidgetTree.AcyclicIffNoCycle | gtk/gtkwidgetprivate.h:158 | an arena has a rank that decreases along `parent` exactly when every parent is live and no widget is its own strict ancestor |
| WidgetTree.CycleHasNoToplevel | gtk/gtkwidgetprivate.h:413-414 | on a cyclic parent chain no widget without a parent is ever reached, so the loop would not stop |
| WidgetTree.ChainIntoCycleHasNoToplevel | gtk/gtkwidgetprivate.h:413-414 | a chain that runs into a parent cycle, even one not containing the start widget, reaches no root either |
| WidgetTree.WindowOwner | gtk/gtkwidgetprivate.h:146-150 | the owner of a widget's window is a live widget that has its own window (`HasWindow`, line 378) or is parentless; a widget with its own window owns it |
| WidgetTree.WindowOwnerIsAncestor | gtk/gtkwidgetprivate.h:146-150 | the owner of a widget's window is the widget itself or one of its ancestors |
| WidgetTree.WindowOwnerIsNearest | gtk/gtkwidgetprivate.h:146-150 | the owner is the first widget on the parent chain with a window of its own (or the root): every widget strictly before it is windowless |
| WidgetTree.WindowOwnerRankFree | gtk/gtkwidgetprivate.h:146-150 | the owner depends on the parent links alone, not on the rank witness used to reach it |
| WidgetTree.WindowComesFromOwner | gtk/gtkwidgetprivate.h:146-150 | when every realized windowless widget shares its parent's `window` and parents are realized before their children, a realized widget's `window` is the window of its nearest ancestor-or-self that `HasWindow` |

## Left out

- The functions declared only as prototypes (gtk/gtkwidgetprivate.h:170-339) are left out
  because their bodies are not part of this model. This covers `gtk_widget_ensure_resize`,
  `gtk_widget_ensure_allocate`, `gtk_widget_needs_allocate`, `gtk_widget_common_ancestor`,
  `gtk_widget_focus_sort`, `gtk_widget_focus_move`, `_gtk_widget_synthesize_crossing`, the
  device-window, controller, size-group and attached-window functions, and the
  `adjust_size_*` hooks. The flags they maintain (`resize_needed`, `alloc_needed`,
  `alloc_needed_on_child`, the expand flags) are stored in the record, but no invariant
  among them is stated.
- The invariants that tie the sibling and child links to `parent` are not stated. The
  insertion and removal code that keeps them is not part of this model, and no modelled
  reader depends on them.
- The public `gtk_widget_get_style_context` (called at line 425) belongs to the style
  engine, which is not part of this model. Its result is a parameter. The context it
  creates and caches in the widget is not modelled.
- `WindowsDelegated` and `RealizedUpward` are hypotheses. The first comes from the comment
  on the `window` field (lines 146-149), which describes realized widgets. The second is the
  order in which widgets are realized. The code that realizes widgets and assigns `window`
  (gtk/gtkwidget.c) is not part of this model, so the model does not prove that any
  operation keeps either hypothesis.
- WidgetTree.WindowComesFromOwner: says nothing about unrealized widgets. Their `window`
  field is not described by the comment on the field: a windowless child added under a
  realized parent has no window until it is realized itself.
- `_gtk_widget_peek_request_cache` and the `requests` field are left out because the
  `SizeRequestCache` type is defined elsewhere.
- The record omits the collaborator-owned fields `cssnode`, `accessible`, `cursor`,
  `tick_callbacks`, `attached_windows`, `registered_windows` and `event_controllers`.
  These are opaque handles and lists that no modelled reader uses. `window` and `context`
  are kept as opaque handles.
- The debug-only fields `highlight_resize` and `verifying_invariants_count` are omitted.
  They exist only in debug or consistency-check builds.
- `G_LIKELY` is a branch hint with no meaning of its own. The `G_BEGIN_DECLS` /
  `G_END_DECLS` macros are plumbing for C++ compilers.
- WidgetTree.GetToplevel: the source walks any chain it is given. The model requires an
  acyclic arena whose parents are all live widgets. On a cyclic chain the C loop never
  returns, and `CycleHasNoToplevel` states that case instead.
