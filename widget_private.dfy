/**
 * The per-widget state record `struct _GtkWidgetPrivate` and the inline readers of
 * gtk/gtkwidgetprivate.h that compute something from it.
 *
 * Every reader that returns one stored field unchanged (`_gtk_widget_get_parent`,
 * `_gtk_widget_get_visible`, `_gtk_widget_get_state_flags`, `_gtk_widget_get_window`,
 * `_gtk_widget_get_allocation`, the sibling and child readers, ...) is the selector of
 * the same name on `WidgetPrivate` (`w.parent`, `w.visible`, `w.stateFlags`, ...).
 */
module Widget {
  import opened Wrappers
  import opened BitFields

  /** A non-NULL `GtkWidget *`: the identity of a widget in an arena. */
  type WidgetId = nat

  /** A non-NULL pointer to an object owned by a collaborator (a GdkWindow, a GtkStyleContext). */
  type Handle = nat

  /** Bit widths of the packed fields. */
  const GTK_STATE_FLAGS_BITS: nat := 14
  const DIRECTION_BITS: nat := 2
  const ALIGN_BITS: nat := 4
  const GUINT8_BITS: nat := 8

  /** `guint state_flags : GTK_STATE_FLAGS_BITS` */
  type StateFlags = x: nat | x < Pow2(GTK_STATE_FLAGS_BITS)
  /** `guint direction : 2`, a GtkTextDirection code */
  type DirectionField = x: nat | x < Pow2(DIRECTION_BITS)
  /** `guint halign : 4`, `guint valign : 4`, GtkAlign codes */
  type AlignField = x: nat | x < Pow2(ALIGN_BITS)
  /** `guint8` */
  type UInt8 = x: nat | x < Pow2(GUINT8_BITS)
  /** `guint` */
  type UInt32 = x: nat | x < 0x1_0000_0000
  /** `gint` */
  type Int32 = x: int | -0x8000_0000 <= x < 0x8000_0000
  /** `gint16` */
  type Int16 = x: int | -0x8000 <= x < 0x8000

  /** GtkTextDirection codes (gtk/gtkenums.h is not part of this model). */
  const GTK_TEXT_DIR_NONE: nat := 0
  const GTK_TEXT_DIR_LTR: nat := 1
  const GTK_TEXT_DIR_RTL: nat := 2

  /** GtkAlign codes, FILL, START, END, CENTER, BASELINE (gtk/gtkenums.h is not part of this model). */
  const GTK_ALIGN_FILL: nat := 0
  const GTK_ALIGN_BASELINE: nat := 4

  /** GtkAllocation (a GdkRectangle) */
  datatype Allocation = Allocation(x: Int32, y: Int32, width: Int32, height: Int32)

  /** GtkBorder */
  datatype Border = Border(left: Int16, right: Int16, top: Int16, bottom: Int16)

  /** `struct _GtkWidgetPrivate`, without the debug-only and collaborator-owned fields. */
  datatype WidgetPrivate = WidgetPrivate(
    stateFlags: StateFlags,
    direction: DirectionField,
    inDestruction: bool,
    toplevel: bool,
    anchored: bool,
    noWindow: bool,
    noWindowSet: bool,
    realized: bool,
    mapped: bool,
    visible: bool,
    sensitive: bool,
    canFocus: bool,
    hasFocus: bool,
    focusOnClick: bool,
    canDefault: bool,
    hasDefault: bool,
    receivesDefault: bool,
    hasGrab: bool,
    shadowed: bool,
    childVisible: bool,
    multidevice: bool,
    hasShapeMask: bool,
    passThrough: bool,
    // queue-resize bookkeeping
    resizeNeeded: bool,
    allocNeeded: bool,
    allocNeededOnChild: bool,
    // expand bookkeeping
    needComputeExpand: bool,
    computedHexpand: bool,
    computedVexpand: bool,
    hexpand: bool,
    vexpand: bool,
    hexpandSet: bool,
    vexpandSet: bool,
    hasTooltip: bool,
    haveSizeGroups: bool,
    halign: AlignField,
    valign: AlignField,
    alpha: UInt8,
    userAlpha: UInt8,
    width: Int32,
    height: Int32,
    margin: Border,
    clockTickId: UInt32,
    name: Option<string>,
    context: Option<Handle>,
    allocatedSize: Allocation,
    allocatedSizeBaseline: Int32,
    allocation: Allocation,
    clip: Allocation,
    reportedClip: Allocation,
    allocatedBaseline: Int32,
    window: Option<Handle>,
    // widget tree
    parent: Option<WidgetId>,
    prevSibling: Option<WidgetId>,
    nextSibling: Option<WidgetId>,
    firstChild: Option<WidgetId>,
    lastChild: Option<WidgetId>,
    focusChild: Option<WidgetId>
  )

  /** `_gtk_widget_is_drawable`: a widget can be drawn when it is visible and mapped. */
  predicate IsDrawable(w: WidgetPrivate)
  {
    w.visible && w.mapped
  }

  /** `_gtk_widget_get_has_window`: a widget has its own window unless `no_window` is set. */
  predicate HasWindow(w: WidgetPrivate)
  {
    !w.noWindow
  }

  /**
   * `_gtk_widget_get_direction`: the widget's own direction, or the process-wide
   * `gtk_default_direction` (passed in) when the widget stores GTK_TEXT_DIR_NONE.
   */
  function GetDirection(w: WidgetPrivate, defaultDirection: nat): nat
  {
    if w.direction == GTK_TEXT_DIR_NONE then defaultDirection else w.direction
  }

  /** LTR or RTL: a direction text can actually be laid out in. */
  predicate IsConcreteDirection(d: nat)
  {
    d == GTK_TEXT_DIR_LTR || d == GTK_TEXT_DIR_RTL
  }

  /** A GtkTextDirection code: NONE, LTR or RTL. */
  predicate IsTextDirection(d: nat)
  {
    d == GTK_TEXT_DIR_NONE || IsConcreteDirection(d)
  }

  /**
   * Direction resolution never yields NONE: when the stored code is a GtkTextDirection
   * and the default is concrete, so is the resolved direction.
   */
  lemma ResolvedDirectionIsConcrete(w: WidgetPrivate, defaultDirection: nat)
    requires IsTextDirection(w.direction)
    requires IsConcreteDirection(defaultDirection)
    ensures IsConcreteDirection(GetDirection(w, defaultDirection))
  {
  }

  /** The process-wide default matters exactly for widgets that store GTK_TEXT_DIR_NONE. */
  lemma DirectionDependsOnDefault(w: WidgetPrivate, d1: nat, d2: nat)
    ensures GetDirection(w, d1) != GetDirection(w, d2) <==> w.direction == GTK_TEXT_DIR_NONE && d1 != d2
  {
  }

  /**
   * `_gtk_widget_get_style_context`: the cached `context` when it is non-NULL; otherwise
   * the result of the public `gtk_widget_get_style_context`, passed in as `created`.
   */
  function GetStyleContext(w: WidgetPrivate, created: Handle): Handle
  {
    if w.context.Some? then w.context.value else created
  }

  /** The public getter is consulted exactly when no context is cached. */
  lemma StyleContextDependsOnFallback(w: WidgetPrivate, c1: Handle, c2: Handle)
    ensures GetStyleContext(w, c1) != GetStyleContext(w, c2) <==> w.context.None? && c1 != c2
  {
  }

  /** Every GtkTextDirection code survives a store into the 2-bit `direction` field. */
  lemma TextDirectionsFitField(d: nat)
    requires IsTextDirection(d)
    ensures Store(d, DIRECTION_BITS) == d
  {
  }

  /** Every GtkAlign code survives a store into the 4-bit `halign` and `valign` fields. */
  lemma AlignmentsFitField(a: nat)
    requires GTK_ALIGN_FILL <= a <= GTK_ALIGN_BASELINE
    ensures Store(a, ALIGN_BITS) == a
  {
  }

  /**
   * A state flag `1 << i` is kept by the `state_flags` field exactly when
   * i < GTK_STATE_FLAGS_BITS; the value read back is always below 2^14.
   */
  lemma StateFlagBitKept(i: nat)
    ensures Store(Pow2(i), GTK_STATE_FLAGS_BITS) == Pow2(i) <==> i < 14
    ensures Store(Pow2(i), GTK_STATE_FLAGS_BITS) < 0x4000
  {
    FlagBitSurvives(i, GTK_STATE_FLAGS_BITS);
  }

  /** The packed fields of any record fit their declared widths. */
  lemma FieldsFitWidths(w: WidgetPrivate)
    ensures w.stateFlags < 0x4000 && w.direction < 4
    ensures w.halign < 16 && w.valign < 16
    ensures w.alpha < 256 && w.userAlpha < 256
  {
  }
}
