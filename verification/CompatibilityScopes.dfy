/** The page surfaces to which the generated fallbacks are limited. */
module CompatibilityScopes {
  import opened Text

  function Role(value: string): string {
    "[role=\"" + value + "\"]"
  }

  function Slot(value: string): string {
    "[data-slot=\"" + value + "\"]"
  }

  function Roles(values: seq<string>): seq<string> {
    if values == [] then [] else [Role(values[0])] + Roles(values[1..])
  }

  function Slots(values: seq<string>): seq<string> {
    if values == [] then [] else [Slot(values[0])] + Slots(values[1..])
  }

  const DIALOG_ROLES: seq<string> := ["dialog", "alertdialog"]
  const DRAWER := "command-menu-knowledge-detail-drawer"
  const EDITOR_OVERLAY := "knowledge-base-entry-editor-overlay"
  const DELETE_OVERLAY := "vehicle-contact-delete-dialog-overlay"
  const DRAWER_SLOTS: seq<string> := [DRAWER, EDITOR_OVERLAY, DELETE_OVERLAY]

  const FLOATING_ROLES: seq<string> := DIALOG_ROLES + ["menu", "listbox", "tooltip"]
  const FLOATING_SLOTS: seq<string> := ["popover-content", "tooltip-content"] + DRAWER_SLOTS
  const BUSINESS_CONTENT_SLOTS: seq<string> := ["sidebar-inset", "global-bottom-dock"]
  const SIDEBAR_SLOT := "sidebar"

  const FLOATING_SURFACE_SCOPES := Roles(FLOATING_ROLES) + Slots(FLOATING_SLOTS)

  const BUSINESS_CONTENT_SCOPES := Slots(BUSINESS_CONTENT_SLOTS)

  const COMPATIBILITY_SCOPES := BUSINESS_CONTENT_SCOPES + Slots([SIDEBAR_SLOT]) + FLOATING_SURFACE_SCOPES

  const DEFAULT_FOREGROUND_SCOPES := BUSINESS_CONTENT_SCOPES + Roles(DIALOG_ROLES) + Slots(DRAWER_SLOTS)

  function WithDescendants(scopes: seq<string>): seq<string> {
    if scopes == [] then [] else [scopes[0], scopes[0] + " *"] + WithDescendants(scopes[1..])
  }

  function Where(scopes: seq<string>): (r: string)
    ensures |r| >= 8
  {
    ":where(" + Join(scopes, ", ") + ")"
  }

  function Subject(): string {
    Where(WithDescendants(COMPATIBILITY_SCOPES))
  }

  function Roots(): string {
    Where(COMPATIBILITY_SCOPES)
  }

  function ForegroundScopes(): string {
    Where(DEFAULT_FOREGROUND_SCOPES)
  }

  /** The surfaces, in order, and the order of those whose text is coloured by default. */
  lemma ScopesListed()
    ensures COMPATIBILITY_SCOPES ==
            [Slot("sidebar-inset"), Slot("global-bottom-dock"), Slot("sidebar"), Role("dialog"), Role("alertdialog"), Role("menu"),
             Role("listbox"), Role("tooltip"), Slot("popover-content"), Slot("tooltip-content"),
             Slot("command-menu-knowledge-detail-drawer"), Slot("knowledge-base-entry-editor-overlay"),
             Slot("vehicle-contact-delete-dialog-overlay")]
    ensures DEFAULT_FOREGROUND_SCOPES ==
            [Slot("sidebar-inset"), Slot("global-bottom-dock"), Role("dialog"), Role("alertdialog"),
             Slot("command-menu-knowledge-detail-drawer"), Slot("knowledge-base-entry-editor-overlay"),
             Slot("vehicle-contact-delete-dialog-overlay")]
  {
    RolesListed(FLOATING_ROLES);
    SlotsListed(FLOATING_SLOTS);
    SlotsListed(BUSINESS_CONTENT_SLOTS);
    SlotsListed([SIDEBAR_SLOT]);
    RolesListed(DIALOG_ROLES);
    SlotsListed(DRAWER_SLOTS);
  }

  lemma {:induction false} RolesListed(values: seq<string>)
    ensures |Roles(values)| == |values| && forall i | 0 <= i < |values| :: Roles(values)[i] == Role(values[i])
  {
    if values != [] {
      RolesListed(values[1..]);
    }
  }

  lemma {:induction false} SlotsListed(values: seq<string>)
    ensures |Slots(values)| == |values| && forall i | 0 <= i < |values| :: Slots(values)[i] == Slot(values[i])
  {
    if values != [] {
      SlotsListed(values[1..]);
    }
  }

  lemma {:induction false} DescendantsListed(scopes: seq<string>)
    ensures |WithDescendants(scopes)| == 2 * |scopes|
    ensures forall i | 0 <= i < |scopes| ::
              WithDescendants(scopes)[2 * i] == scopes[i] && WithDescendants(scopes)[2 * i + 1] == scopes[i] + " *"
  {
    if scopes != [] {
      DescendantsListed(scopes[1..]);
    }
  }

  /** The scope of a fallback is any of the surfaces or anything below one; the roots are the surfaces themselves. */
  lemma SubjectSpelled() returns (scopes: seq<string>)
    ensures Subject() == ":where(" + Join(scopes, ", ") + ")" && |scopes| == 2 * |COMPATIBILITY_SCOPES|
    ensures forall i | 0 <= i < |COMPATIBILITY_SCOPES| ::
              scopes[2 * i] == COMPATIBILITY_SCOPES[i] && scopes[2 * i + 1] == COMPATIBILITY_SCOPES[i] + " *"
    ensures Roots() == ":where(" + Join(COMPATIBILITY_SCOPES, ", ") + ")"
    ensures ForegroundScopes() == ":where(" + Join(DEFAULT_FOREGROUND_SCOPES, ", ") + ")"
  {
    scopes := WithDescendants(COMPATIBILITY_SCOPES);
    DescendantsListed(COMPATIBILITY_SCOPES);
  }
}
