/** The transient on-screen messages the page shows (`showNotification`). */
module Notifications {

  /** The message kind; `success` is the default when the caller gives none */
  datatype Kind = Success | Error

  datatype Notification = Notification(message: string, kind: Kind)
}
