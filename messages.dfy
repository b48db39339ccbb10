/** The user-facing messages of the account core, each defined once. */
module Messages {

  // Schema validators (src/models/user.model.ts)
  const FirstNameRequired := "El nombre es requerido"
  const FirstNameTooShort := "El nombre debe tener al menos 2 caracteres"
  const FirstNameTooLong := "El nombre no puede exceder 50 caracteres"
  const LastNameRequired := "El apellido es requerido"
  const LastNameTooShort := "El apellido debe tener al menos 2 caracteres"
  const LastNameTooLong := "El apellido no puede exceder 50 caracteres"
  const EmailRequired := "El correo electrónico es requerido"
  const EmailInvalid := "Por favor ingresa un correo electrónico válido"
  const PasswordRequired := "La contraseña es requerida"
  const PasswordTooShort := "La contraseña debe tener al menos 4 caracteres"

  // Service errors (src/services/user.service.ts)
  const AllFieldsRequired := "Todos los campos son requeridos"
  const EmailFormatInvalid := "El formato del correo electrónico no es válido"
  const DuplicateEmail := "Ya existe un usuario registrado con este correo electrónico"
  const CredentialsRequired := "Correo electrónico y contraseña son requeridos"
  const InvalidCredentials := "Credenciales inválidas"
  const UserNotFound := "Usuario no encontrado"

  // Controller responses (src/controllers/user.controller.ts)
  const Registered := "Usuario registrado exitosamente"
  const LoggedIn := "Login exitoso"
  const LoginFailed := "Correo electrónico o contraseña incorrectos"
  const UserIdRequired := "ID de usuario requerido"
  const NoValidUpdate := "No se proporcionaron datos válidos para actualizar"
  const ProfileUpdated := "Perfil actualizado exitosamente"
  const InternalError := "Error interno del servidor"
}
