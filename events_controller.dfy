/** controllers/events.js: the request handlers of the event routes. Each
    runs, after the authorization gate, as one sequential step over the
    tables: validate the form, look the event up scoped to the caller, then
    insert, update or delete, and answer with a status code.

    `req.user` is the `Claims` the gate attached. `Date.parse` and
    `fs.unlinkSync` are foreign: `dateParses(date)` stands for
    `!isNaN(Date.parse(date))` and `unlinkSucceeds(image)` for the unlink of
    `public/images/<image>` returning without throwing. */
module EventHandlers {
  import opened Results
  import opened Text
  import opened Auth
  import opened EventModel

  /** `req.body`: the text fields of the multipart form. */
  datatype EventForm = EventForm(
    title: Option<string>, description: Option<string>, address: Option<string>, date: Option<string>)

  /** `req.file`: the upload the disk storage already saved, by its stored
      file name and its MIME type. */
  datatype Upload = Upload(filename: string, mimetype: string)

  const AllowedMimeTypes: seq<string> := ["image/jpeg", "image/png", "image/jpg"]

  /** What `res.status(...).json(...)` or `.send()` sends. */
  datatype Body =
    | Message(text: string)
    | NoContent
    | EventJson(row: EventRow)
    | EventList(rows: seq<EventRow>)
    | CreatedJson(created: CreatedEvent)
    | EditedJson(edited: EditedEvent)

  datatype Response = Response(status: int, body: Body)

  const TitleDateMessage := "Title and date are required and must be valid."
  const DescriptionAddressMessage := "Description and address are required."
  const ImageFormatMessage := "Invalid image format."
  const DuplicateTitleMessage := "Event with same title already exists."
  const ImageNotDeletedMessage := "Event deleted successfully, but failed to delete associated image file."
  const InternalErrorMessage := "Internal server error."

  // ---------------------------------------------------------------------
  // Validation

  predicate TitleDateOk(form: EventForm, dateParses: string -> bool) {
    Truthy(form.title) && Truthy(form.date) && !IsBlank(form.title.value) && dateParses(form.date.value)
  }

  predicate DescriptionAddressOk(form: EventForm) {
    && Truthy(form.description) && Truthy(form.address)
    && !IsBlank(form.description.value) && !IsBlank(form.address.value)
  }

  predicate ImageOk(file: Option<Upload>) {
    file.Some? ==> file.value.mimetype in AllowedMimeTypes
  }

  /** The three checks create and edit run, in order, before any lookup:
      the message of the first that fails, or nothing. */
  function FormError(form: EventForm, file: Option<Upload>, dateParses: string -> bool): (r: Option<string>)
    ensures r.None? <==> TitleDateOk(form, dateParses) && DescriptionAddressOk(form) && ImageOk(file)
    ensures r == Some(TitleDateMessage) <==> !TitleDateOk(form, dateParses)
    ensures r == Some(DescriptionAddressMessage) <==> TitleDateOk(form, dateParses) && !DescriptionAddressOk(form)
    ensures r == Some(ImageFormatMessage) <==>
              TitleDateOk(form, dateParses) && DescriptionAddressOk(form) && !ImageOk(file)
  {
    if !Truthy(form.title) || !Truthy(form.date) || IsBlank(form.title.value) || !dateParses(form.date.value) then
      Some(TitleDateMessage)
    else if !Truthy(form.description) || !Truthy(form.address)
            || IsBlank(form.description.value) || IsBlank(form.address.value) then
      Some(DescriptionAddressMessage)
    else if file.Some? && file.value.mimetype !in AllowedMimeTypes then
      Some(ImageFormatMessage)
    else
      None
  }

  /** An accepted form has, in its title, description and address, at least
      one code point that is neither white space nor a line terminator. */
  lemma AcceptedFormHasText(form: EventForm, file: Option<Upload>, dateParses: string -> bool)
    requires FormError(form, file, dateParses).None?
    ensures exists i | 0 <= i < |form.title.value| :: !IsTrimmable(form.title.value[i])
    ensures exists i | 0 <= i < |form.description.value| :: !IsTrimmable(form.description.value[i])
    ensures exists i | 0 <= i < |form.address.value| :: !IsTrimmable(form.address.value[i])
  {
    BlankIffAllTrimmable(form.title.value);
    BlankIffAllTrimmable(form.description.value);
    BlankIffAllTrimmable(form.address.value);
  }

  /** `req.file ? req.file.filename : null` */
  function ImageName(file: Option<Upload>): (image: Option<string>)
    ensures image.None? <==> file.None?
    ensures file.Some? ==> image == Some(file.value.filename)
  {
    if file.Some? then Some(file.value.filename) else None
  }

  // ---------------------------------------------------------------------
  // The catch blocks

  /** The catch block of edit, deleteEvent, event and unregister. */
  function NotFoundResponse(message: string): (r: Response)
    ensures r.status == 404 <==> Includes(message, "not found")
    ensures r.status == 404 ==> r.body == Message(message + ".")
    ensures r.status != 404 ==> r == Response(500, Message(InternalErrorMessage))
  {
    if Includes(message, "not found") then Response(404, Message(message + "."))
    else Response(500, Message(InternalErrorMessage))
  }

  /** The catch block of register. */
  function RegisterErrorResponse(message: string): (r: Response)
    ensures r.status == 409 <==> Includes(message, AlreadyRegistered)
    ensures r.status == 404 <==> !Includes(message, AlreadyRegistered) && Includes(message, EventNotFound)
    ensures r.status == 409 || r.status == 404 ==> r.body == Message(message + ".")
    ensures r.status != 409 && r.status != 404 ==> r == Response(500, Message(InternalErrorMessage))
  {
    if Includes(message, AlreadyRegistered) then Response(409, Message(message + "."))
    else if Includes(message, EventNotFound) then Response(404, Message(message + "."))
    else Response(500, Message(InternalErrorMessage))
  }

  /** The lookup's and unregistration's errors reach the catch block as 404
      with their own message, never as 500. */
  lemma CaughtNotFound()
    ensures NotFoundResponse(GetPrefix + EventNotFound) == Response(404, Message(GetPrefix + EventNotFound + "."))
    ensures NotFoundResponse(UnregisterPrefix + EventNotFound)
            == Response(404, Message(UnregisterPrefix + EventNotFound + "."))
  {
    IncludesSuffix(GetPrefix + "Event ", "not found");
    assert GetPrefix + EventNotFound == GetPrefix + "Event " + "not found";
    IncludesSuffix(UnregisterPrefix + "Event ", "not found");
    assert UnregisterPrefix + EventNotFound == UnregisterPrefix + "Event " + "not found";
  }

  /** In register, the lookup's error is 404 and a repeated registration
      409, each with its own message. */
  lemma CaughtRegisterErrors()
    ensures RegisterErrorResponse(GetPrefix + EventNotFound) == Response(404, Message(GetPrefix + EventNotFound + "."))
    ensures RegisterErrorResponse(RegisterPrefix + AlreadyRegistered)
            == Response(409, Message(RegisterPrefix + AlreadyRegistered + "."))
  {
    LongerNotIncluded(GetPrefix + EventNotFound, AlreadyRegistered);
    IncludesSuffix(GetPrefix, EventNotFound);
    IncludesSuffix(RegisterPrefix, AlreadyRegistered);
  }

  // ---------------------------------------------------------------------
  // Handlers

  /** create: after validation, refuse a title the caller already uses
      (another owner's event with that title does not count), otherwise
      insert the event owned by the caller, with the uploaded file name as
      its image or null without an upload. */
  method Create(store: EventTable, user: Claims, form: EventForm, file: Option<Upload>,
                dateParses: string -> bool, dbTime: string, isoTime: string) returns (resp: Response)
    requires store.Valid()
    modifies store
    ensures store.Valid()
    ensures FormError(form, file, dateParses).Some? ==>
              resp == Response(400, Message(FormError(form, file, dateParses).value)) && unchanged(store)
    ensures FormError(form, file, dateParses).None? && AnyMatch(old(store.events), user.userId, Title(form.title.value)) ==>
              resp == Response(409, Message(DuplicateTitleMessage)) && unchanged(store)
    ensures FormError(form, file, dateParses).None? && !AnyMatch(old(store.events), user.userId, Title(form.title.value)) ==>
              var data := EventData(form.title.value, form.description.value, form.address.value,
                                    form.date.value, ImageName(file), user.userId);
              var id := NextEventId(old(store.events));
              && resp == Response(201, CreatedJson(CreatedEvent(id, data, isoTime)))
              && store.events == old(store.events) + [RowOf(id, data, dbTime)]
              && store.registrations == old(store.registrations)
  {
    var invalid := FormError(form, file, dateParses);
    if invalid.Some? {
      resp := Response(400, Message(invalid.value));
      return;
    }
    var title := form.title.value;
    var existingEvent := store.GetEventByUserAndParameter(user.userId, Title(title));
    match existingEvent
    case Ok(Some(_)) =>
      resp := Response(409, Message(DuplicateTitleMessage));
    case Ok(None) =>
      var eventData := EventData(title, form.description.value, form.address.value, form.date.value,
                                 ImageName(file), user.userId);
      var event := store.CreateEvent(eventData, dbTime, isoTime);
      resp := Response(201, CreatedJson(event));
  }

  /** edit: after validation, a missing or foreign event is 404 through the
      lookup's exception; otherwise the five columns are overwritten, the
      image kept when nothing was uploaded. */
  method Edit(store: EventTable, user: Claims, id: int, form: EventForm, file: Option<Upload>,
              dateParses: string -> bool) returns (resp: Response)
    requires store.Valid()
    modifies store
    ensures store.Valid()
    ensures FormError(form, file, dateParses).Some? ==>
              resp == Response(400, Message(FormError(form, file, dateParses).value)) && unchanged(store)
    ensures FormError(form, file, dateParses).None? && !AnyMatch(old(store.events), user.userId, Id(id)) ==>
              resp == Response(404, Message(GetPrefix + EventNotFound + ".")) && unchanged(store)
    ensures FormError(form, file, dateParses).None? && AnyMatch(old(store.events), user.userId, Id(id)) ==>
              var existing := FirstMatch(old(store.events), user.userId, Id(id)).value;
              var edit := EventEdit(form.title.value, form.description.value, form.address.value, form.date.value,
                                    if file.Some? then Some(file.value.filename) else existing.image);
              && resp == Response(200, EditedJson(EditedEvent(id, edit)))
              && store.events == Overwrite(old(store.events), id, edit)
              && store.registrations == old(store.registrations)
  {
    var invalid := FormError(form, file, dateParses);
    if invalid.Some? {
      resp := Response(400, Message(invalid.value));
      return;
    }
    var existingEvent := store.GetEventByUserAndParameter(user.userId, Id(id));
    match existingEvent
    case Err(message) =>
      CaughtNotFound();
      resp := NotFoundResponse(message);
    case Ok(Some(existing)) =>
      var eventData := EventEdit(form.title.value, form.description.value, form.address.value, form.date.value,
                                 if file.Some? then Some(file.value.filename) else existing.image);
      var updatedEvent := store.EditEvent(id, eventData);
      match updatedEvent
      case Ok(updated) =>
        resp := Response(200, EditedJson(updated));
  }

  /** deleteEvent: a missing or foreign event is 404; otherwise the row is
      deleted first, then the image file, if the event has one. A failed file
      deletion gives 500 with the row already gone; the registrations of the
      event are left in place. */
  method DeleteEvent(store: EventTable, user: Claims, id: int, unlinkSucceeds: string -> bool)
    returns (resp: Response)
    requires store.Valid()
    modifies store
    ensures store.Valid()
    ensures !AnyMatch(old(store.events), user.userId, Id(id)) ==>
              resp == Response(404, Message(GetPrefix + EventNotFound + ".")) && unchanged(store)
    ensures AnyMatch(old(store.events), user.userId, Id(id)) ==>
              var event := FirstMatch(old(store.events), user.userId, Id(id)).value;
              && store.events == WithoutId(old(store.events), id)
              && store.registrations == old(store.registrations)
              && resp == if Truthy(event.image) && !unlinkSucceeds(event.image.value)
                         then Response(500, Message(ImageNotDeletedMessage))
                         else Response(204, NoContent)
  {
    var found := store.GetEventByUserAndParameter(user.userId, Id(id));
    match found
    case Err(message) =>
      CaughtNotFound();
      resp := NotFoundResponse(message);
    case Ok(Some(event)) =>
      var deleted := store.DeleteUserEvent(id);
      match deleted
      case Ok(_) =>
        if Truthy(event.image) {
          var removed := unlinkSucceeds(event.image.value);
          if !removed {
            resp := Response(500, Message(ImageNotDeletedMessage));
            return;
          }
        }
        resp := Response(204, NoContent);
  }

  /** user_events: the caller's events, and no one else's. */
  method UserEvents(store: EventTable, user: Claims) returns (resp: Response)
    requires store.Valid()
    ensures resp.status == 200 && resp.body.EventList?
    ensures forall e :: e in resp.body.rows <==> e in store.events && e.createdBy == user.userId
    ensures Increasing(resp.body.rows)
  {
    var events := store.GetEventsByUser(user.userId);
    resp := Response(200, EventList(events));
  }

  /** events: every event of every user, in table order. */
  method AllEvents(store: EventTable) returns (resp: Response)
    ensures resp == Response(200, EventList(store.events))
  {
    var events := store.GetAllEvents();
    resp := Response(200, EventList(events));
  }

  /** event: the caller's event with that id, or 404 when it is missing or
      belongs to someone else. */
  method GetEvent(store: EventTable, user: Claims, id: int) returns (resp: Response)
    requires store.Valid()
    ensures resp.status == 200 <==> AnyMatch(store.events, user.userId, Id(id))
    ensures resp.status == 200 ==>
              && resp.body.EventJson? && resp.body.row in store.events
              && resp.body.row.id == id && resp.body.row.createdBy == user.userId
    ensures resp.status != 200 ==> resp == Response(404, Message(GetPrefix + EventNotFound + "."))
  {
    var event := store.GetEventByUserAndParameter(user.userId, Id(id));
    match event
    case Err(message) =>
      CaughtNotFound();
      resp := NotFoundResponse(message);
    case Ok(Some(row)) =>
      resp := Response(200, EventJson(row));
  }

  /** register: only the owner of the event may register for it; a second
      registration of the same caller is 409. */
  method Register(store: EventTable, user: Claims, id: int) returns (resp: Response)
    requires store.Valid()
    modifies store
    ensures store.Valid()
    ensures store.events == old(store.events)
    ensures !AnyMatch(old(store.events), user.userId, Id(id)) ==>
              resp == Response(404, Message(GetPrefix + EventNotFound + ".")) && unchanged(store)
    ensures AnyMatch(old(store.events), user.userId, Id(id)) && Registration(id, user.userId) in old(store.registrations) ==>
              resp == Response(409, Message(RegisterPrefix + AlreadyRegistered + "."))
              && store.registrations == old(store.registrations)
    ensures AnyMatch(old(store.events), user.userId, Id(id)) && Registration(id, user.userId) !in old(store.registrations) ==>
              && resp == Response(201, Message("Event registered successfully"))
              && store.registrations == old(store.registrations) + [Registration(id, user.userId)]
  {
    var event := store.GetEventByUserAndParameter(user.userId, Id(id));
    match event
    case Err(message) =>
      CaughtRegisterErrors();
      resp := RegisterErrorResponse(message);
    case Ok(Some(_)) =>
      var result := store.RegisterForEvent(id, user.userId);
      match result
      case Err(message) =>
        CaughtRegisterErrors();
        resp := RegisterErrorResponse(message);
      case Ok(message) =>
        resp := Response(201, Message(message));
  }

  /** unregister: a missing or foreign event is 404, and so is an event the
      caller is not registered for; otherwise the registration is removed. */
  method Unregister(store: EventTable, user: Claims, id: int) returns (resp: Response)
    requires store.Valid()
    modifies store
    ensures store.Valid()
    ensures store.events == old(store.events)
    ensures !AnyMatch(old(store.events), user.userId, Id(id)) ==>
              resp == Response(404, Message(GetPrefix + EventNotFound + ".")) && unchanged(store)
    ensures AnyMatch(old(store.events), user.userId, Id(id)) && Registration(id, user.userId) !in old(store.registrations) ==>
              resp == Response(404, Message(UnregisterPrefix + EventNotFound + "."))
              && store.registrations == old(store.registrations)
    ensures AnyMatch(old(store.events), user.userId, Id(id)) && Registration(id, user.userId) in old(store.registrations) ==>
              && resp == Response(204, NoContent)
              && store.registrations == WithoutPair(old(store.registrations), Registration(id, user.userId))
  {
    var event := store.GetEventByUserAndParameter(user.userId, Id(id));
    match event
    case Err(message) =>
      CaughtNotFound();
      resp := NotFoundResponse(message);
    case Ok(Some(_)) =>
      var result := store.UnregisterForEvent(id, user.userId);
      match result
      case Err(message) =>
        CaughtNotFound();
        resp := NotFoundResponse(message);
      case Ok(_) =>
        resp := Response(204, NoContent);
  }
}
