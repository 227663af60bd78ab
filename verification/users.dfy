/** The user record (com.man.kafkamonitor.model.User): three strings, nothing else. */
module Users {

  datatype User = User(id: string, name: string, email: string)
}
